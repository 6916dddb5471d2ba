/**
 The TCPROS connection header: length-prefixed `key=value` lines inside a length-prefixed
 header, read incrementally from a socket into a buffer that keeps what follows.
 */
module Handshake {
  import opened Wrappers
  import opened Sequences
  import opened StructFormat

  type Bytes = seq<Byte>

  const EQUALS: Byte := 61

  /** How reading a header can fail; BadStruct is `struct.error`. */
  datatype Error = Terminated | BadStruct | Incomplete | ZeroLengthField | BadFieldLength | NoEquals

  /** One dictionary item. */
  datatype Field = Field(key: Bytes, value: Bytes)

  // ---------------------------------------------------------------- lines

  predicate IsSpace(b: Byte)
  {
    b == 32 || 9 <= b <= 13
  }

  function LStrip(s: Bytes): Bytes
  {
    if s != [] && IsSpace(s[0]) then LStrip(s[1..]) else s
  }

  function RStrip(s: Bytes): Bytes
  {
    if s != [] && IsSpace(s[|s| - 1]) then RStrip(s[..|s| - 1]) else s
  }

  function Strip(s: Bytes): Bytes
  {
    RStrip(LStrip(s))
  }

  predicate Stripped(s: Bytes)
  {
    s == [] || (!IsSpace(s[0]) && !IsSpace(s[|s| - 1]))
  }

  function Line(f: Field): Bytes
  {
    f.key + [EQUALS] + f.value
  }

  function Lines(fields: seq<Field>): seq<Bytes>
  {
    if fields == [] then [] else [Line(fields[0])] + Lines(fields[1..])
  }

  /** The position of the first `=`. */
  function FindEquals(line: Bytes): (k: Option<nat>)
    ensures k.None? <==> EQUALS !in line
    ensures k.Some? ==> k.value < |line| && line[k.value] == EQUALS && EQUALS !in line[..k.value]
  {
    if line == [] then None
    else if line[0] == EQUALS then Some(0)
    else
      match FindEquals(line[1..])
      case None => None
      case Some(k) =>
        assert line[..k + 1] == [line[0]] + line[1..][..k];
        Some(k + 1)
  }

  /** Storing one line in the dictionary. */
  function Store(d: map<Bytes, Bytes>, line: Bytes): map<Bytes, Bytes>
    requires EQUALS in line
  {
    var k := FindEquals(line).value;
    d[Strip(line[..k]) := line[k + 1..]]
  }

  // ---------------------------------------------------------------- frames

  function Frame(line: Bytes): (f: Bytes)
    ensures |f| == 4 + |line|
  {
    LE(|line|, 4) + line
  }

  function Frames(lines: seq<Bytes>): Bytes
  {
    if lines == [] then [] else Frame(lines[0]) + Frames(lines[1..])
  }

  /** `encode_ros_handshake_header` on the items of a dictionary; None when a length does not fit. */
  function Encode(fields: seq<Field>): Option<Bytes>
  {
    var body := Frames(Lines(fields));
    if |body| < UINT32_LIMIT then Some(LE(|body|, 4) + body) else None
  }

  /** The size field. */
  function Size(s: Bytes): (n: nat)
    requires |s| >= 4
    ensures n < UINT32_LIMIT
  {
    PowFour();
    UnLE(s[..4])
  }

  lemma PowFour()
    ensures Pow(256, 4) == UINT32_LIMIT
  {
    assert Pow(256, 1) == 256;
    assert Pow(256, 2) == 65536;
    assert Pow(256, 3) == 0x100_0000;
  }

  /** The framed line at `start`. */
  function LineAt(s: Bytes, start: nat, size: nat): (r: Result<Bytes, Error>)
    requires start < size <= |s|
    ensures r.Success? ==> r.value != [] && start + 4 + |r.value| <= size
  {
    if start + 4 > |s| then Failure(BadStruct)
    else
      var n := Size(s[start..]);
      if n == 0 then Failure(ZeroLengthField)
      else if start + 4 + n > size then Failure(BadFieldLength)
      else Success(s[start + 4..start + 4 + n])
  }

  /** The lines from `start` up to `size`. */
  function DecodeFrom(s: Bytes, start: nat, size: nat, d: map<Bytes, Bytes>): Result<map<Bytes, Bytes>, Error>
    requires size <= |s|
    decreases size - start
  {
    if start >= size then Success(d)
    else
      match LineAt(s, start, size)
      case Failure(e) => Failure(e)
      case Success(line) =>
        if EQUALS !in line then Failure(NoEquals) else DecodeFrom(s, start + 4 + |line|, size, Store(d, line))
  }

  function DecodeHeader(s: Bytes): Result<map<Bytes, Bytes>, Error>
  {
    if |s| < 4 then Failure(BadStruct)
    else if Size(s) + 4 > |s| then Failure(Incomplete)
    else DecodeFrom(s, 4, Size(s) + 4, map[])
  }

  lemma DecodeStep(s: Bytes, start: nat, size: nat, d: map<Bytes, Bytes>)
    requires start < size <= |s|
    ensures var r := LineAt(s, start, size);
      if r.Success? && EQUALS in r.value then
        DecodeFrom(s, start, size, d) == DecodeFrom(s, start + 4 + |r.value|, size, Store(d, r.value))
      else DecodeFrom(s, start, size, d) == Failure(if r.Failure? then r.error else NoEquals)
  {
  }

  lemma DecodeOver(s: Bytes, start: nat, size: nat, d: map<Bytes, Bytes>)
    requires size <= |s| && start >= size
    ensures DecodeFrom(s, start, size, d) == Success(d)
  {
  }

  /** The number in four bytes of the string, the lowest byte first. */
  lemma SizeIs(s: Bytes)
    requires |s| >= 4
    ensures Size(s) == s[0] + 256 * (s[1] as int) + 0x1_0000 * (s[2] as int) + 0x100_0000 * (s[3] as int)
  {
    FromFourBytes(s[..4]);
  }

  /** The four bytes of a number. */
  function SizeBytes(n: nat): Bytes
    requires n < 0x1_0000_0000
  {
    [n % 256, n / 256 % 256, n / 0x1_0000 % 256, n / 0x100_0000]
  }

  /** The header of one item, byte by byte. */
  lemma OneItemOnTheWire(key: Bytes, value: Bytes)
    requires |key| + |value| + 5 < 0x1_0000_0000
    ensures var n := |key| + |value| + 1;
      Encode([Field(key, value)]) == Some(SizeBytes(n + 4) + SizeBytes(n) + key + [61] + value)
  {
    var f := Field(key, value);
    var n := |key| + |value| + 1;
    assert Lines([f]) == [Line(f)] && Frames([Line(f)]) == Frame(Line(f)) by {
      assert [f][1..] == [] && [Line(f)][1..] == [];
    }
    FourBytes(n);
    FourBytes(n + 4);
    assert |Frame(Line(f))| == n + 4;
    hide LE;
    assert Encode([f]) == Some(SizeBytes(n + 4) + (SizeBytes(n) + (key + [61] + value)));
    hide SizeBytes, Encode;
    Regrouped(SizeBytes(n + 4), SizeBytes(n), key, [61], value);
  }

  lemma Regrouped(a: Bytes, b: Bytes, c: Bytes, d: Bytes, e: Bytes)
    ensures a + (b + (c + d + e)) == a + b + c + d + e
  {
  }

  /** More items are more frames behind one size field that counts them all. */
  lemma ItemsOnTheWire(a: seq<Field>, b: seq<Field>)
    requires Encode(a + b).Some?
    ensures Encode(a).Some? && Encode(b).Some?
    ensures var x, y := Encode(a).value, Encode(b).value;
      && |x| >= 4 && |y| >= 4 && |x| + |y| - 8 < 0x1_0000_0000
      && Encode(a + b).value == SizeBytes(|x| + |y| - 8) + x[4..] + y[4..]
  {
    FramesInOrder(a, b);
    FourBytes(|Frames(Lines(a + b))|);
    var x, y := LE(|Frames(Lines(a))|, 4), LE(|Frames(Lines(b))|, 4);
    assert (x + Frames(Lines(a)))[4..] == Frames(Lines(a)) && (y + Frames(Lines(b)))[4..] == Frames(Lines(b));
    hide LE, Frames, Lines;
  }

  lemma {:induction false} FramesInOrder(a: seq<Field>, b: seq<Field>)
    ensures Frames(Lines(a + b)) == Frames(Lines(a)) + Frames(Lines(b))
    decreases |a|
  {
    if a == [] {
      assert a + b == b;
    } else {
      FramesInOrder(a[1..], b);
      assert (a + b)[1..] == a[1..] + b && (a + b)[0] == a[0];
      assert Lines(a)[1..] == Lines(a[1..]) && Lines(a + b)[1..] == Lines(a[1..] + b);
    }
  }

  /** What the size field alone decides. */
  lemma HeaderStarts(s: Bytes)
    ensures |s| < 4 ==> DecodeHeader(s) == Failure(BadStruct)
    ensures |s| >= 4 ==>
      var size := s[0] + 256 * (s[1] as int) + 0x1_0000 * (s[2] as int) + 0x100_0000 * (s[3] as int);
      (DecodeHeader(s) == Failure(Incomplete) <==> size + 4 > |s|) && (size == 0 ==> DecodeHeader(s) == Success(map[]))
  {
    if |s| >= 4 {
      SizeIs(s);
      if Size(s) + 4 <= |s| {
        NeverIncomplete(s, 4, Size(s) + 4, map[]);
      }
    }
  }

  lemma {:induction false} NeverIncomplete(s: Bytes, start: nat, size: nat, d: map<Bytes, Bytes>)
    requires size <= |s|
    ensures DecodeFrom(s, start, size, d) != Failure(Incomplete)
    decreases size - start
  {
    hide Store;
    if start < size && LineAt(s, start, size).Success? {
      var line := LineAt(s, start, size).value;
      if EQUALS in line {
        NeverIncomplete(s, start + 4 + |line|, size, Store(d, line));
      }
    }
  }

  /** `decode_ros_handshake_header`. */
  method Decode(s: Bytes) returns (r: Result<map<Bytes, Bytes>, Error>)
    ensures r == DecodeHeader(s)
    ensures |s| < 4 ==> r == Failure(BadStruct)
    ensures |s| >= 4 ==>
      var size := s[0] + 256 * (s[1] as int) + 0x1_0000 * (s[2] as int) + 0x100_0000 * (s[3] as int);
      (r == Failure(Incomplete) <==> size + 4 > |s|) && (size == 0 ==> r == Success(map[]))
  {
    HeaderStarts(s);
    hide DecodeFrom, Size, Strip, FindEquals;
    if |s| < 4 {
      return Failure(BadStruct);
    }
    var size := Size(s) + 4;
    if size > |s| {
      return Failure(Incomplete);
    }
    var d: map<Bytes, Bytes> := map[];
    var start := 4;
    while start < size
      invariant DecodeHeader(s) == DecodeFrom(s, start, size, d)
      decreases size - start
    {
      DecodeStep(s, start, size, d);
      if start + 4 > |s| {
        return Failure(BadStruct);
      }
      var fieldSize := Size(s[start..]);
      if fieldSize == 0 {
        return Failure(ZeroLengthField);
      }
      start := start + fieldSize + 4;
      if start > size {
        return Failure(BadFieldLength);
      }
      var line := s[start - fieldSize..start];
      var idx := FindEquals(line);
      if idx.None? {
        return Failure(NoEquals);
      }
      var key := line[..idx.value];
      var value := line[idx.value + 1..];
      d := d[Strip(key) := value];
    }
    DecodeOver(s, start, size, d);
    r := Success(d);
  }

  // ---------------------------------------------------------------- decoding accepts exactly the framings

  function StoreAll(d: map<Bytes, Bytes>, lines: seq<Bytes>): map<Bytes, Bytes>
    requires forall line <- lines :: EQUALS in line
    decreases |lines|
  {
    if lines == [] then d else StoreAll(Store(d, lines[0]), lines[1..])
  }

  lemma SizeOfPacked(n: nat, s: Bytes)
    requires n < UINT32_LIMIT && |s| >= 4 && LE(n, 4) <= s
    ensures Size(s) == n
  {
    PowFour();
    LittleEndianRoundTrip(n, 4);
    assert s[..4] == LE(n, 4);
  }

  /** A frame in the middle of a string is read back. */
  lemma FrameIsRead(before: Bytes, line: Bytes, after: Bytes, size: nat)
    requires 0 < |line| < UINT32_LIMIT && |before| + 4 + |line| <= size <= |before| + 4 + |line| + |after|
    ensures LineAt(before + Frame(line) + after, |before|, size) == Success(line)
  {
    var s := before + Frame(line) + after;
    assert s[|before|..] == LE(|line|, 4) + (line + after);
    SizeOfPacked(|line|, s[|before|..]);
    assert s[|before| + 4..|before| + 4 + |line|] == line;
  }

  /** What is read was a frame. */
  lemma ReadIsFrame(s: Bytes, start: nat, size: nat)
    requires start < size <= |s| && LineAt(s, start, size).Success?
    ensures var line := LineAt(s, start, size).value; s[start..start + 4 + |line|] == Frame(line)
  {
    var line := LineAt(s, start, size).value;
    LittleEndianRestored(s[start..][..4]);
    assert s[start..][..4] == s[start..start + 4];
    assert s[start..start + 4 + |line|] == s[start..start + 4] + line;
  }

  lemma FramesMove(a: Bytes, b: Bytes, c: Bytes, d: Bytes)
    ensures a + (b + c) + d == a + b + (c + d) == (a + b) + c + d
  {
  }

  /** Framed lines in the middle of a string are read back one by one. */
  lemma {:induction false} DecodeReadsFrames(before: Bytes, lines: seq<Bytes>, after: Bytes, d: map<Bytes, Bytes>)
    requires |Frames(lines)| < UINT32_LIMIT && forall line <- lines :: EQUALS in line
    ensures DecodeFrom(before + Frames(lines) + after, |before|, |before| + |Frames(lines)|, d) == Success(StoreAll(d, lines))
    decreases |lines|
  {
    hide Frame, LineAt, Store, DecodeFrom;
    var s, size := before + Frames(lines) + after, |before| + |Frames(lines)|;
    if lines == [] {
      DecodeOver(s, size, size, d);
    } else {
      var line, rest := lines[0], lines[1..];
      assert line in lines;
      FramesMove(before, Frame(line), Frames(rest), after);
      FrameIsRead(before, line, Frames(rest) + after, size);
      DecodeStep(s, |before|, size, d);
      DecodeReadsFrames(before + Frame(line), rest, after, Store(d, line));
    }
  }

  /** Whatever is decoded was framed lines. */
  lemma {:induction false} DecodedIsFrames(s: Bytes, start: nat, size: nat, d: map<Bytes, Bytes>) returns (lines: seq<Bytes>)
    requires start <= size <= |s| && DecodeFrom(s, start, size, d).Success?
    ensures forall line <- lines :: EQUALS in line
    ensures s[start..size] == Frames(lines) && DecodeFrom(s, start, size, d) == Success(StoreAll(d, lines))
    decreases size - start
  {
    hide Frame, LineAt, Store, DecodeFrom;
    if start == size {
      DecodeOver(s, size, size, d);
      lines := [];
    } else {
      DecodeStep(s, start, size, d);
      ReadIsFrame(s, start, size);
      var line := LineAt(s, start, size).value;
      var next := start + 4 + |line|;
      var rest := DecodedIsFrames(s, next, size, Store(d, line));
      lines := [line] + rest;
      assert lines[1..] == rest;
      assert s[start..size] == s[start..next] + s[next..size];
    }
  }

  /** `s` begins with a header that frames `lines`. */
  predicate Begins(s: Bytes, lines: seq<Bytes>)
  {
    && |Frames(lines)| < UINT32_LIMIT && (forall line <- lines :: EQUALS in line)
    && LE(|Frames(lines)|, 4) + Frames(lines) <= s
  }

  /** A string decodes exactly when it begins with a header of framed lines that each have an `=`. */
  lemma DecodesIffFramed(s: Bytes)
    ensures DecodeHeader(s).Success? <==> exists lines :: Begins(s, lines)
    ensures forall lines :: Begins(s, lines) ==> DecodeHeader(s) == Success(FramedResult(s, lines))
  {
    hide DecodeHeader, Begins;
    forall lines | Begins(s, lines) ensures DecodeHeader(s) == Success(FramedResult(s, lines)) {
      FramedDecodes(s, lines);
    }
    if DecodeHeader(s).Success? {
      var lines := SuccessIsFramed(s);
    }
  }

  ghost function FramedResult(s: Bytes, lines: seq<Bytes>): map<Bytes, Bytes>
    requires Begins(s, lines)
  {
    StoreAll(map[], lines)
  }

  lemma SuccessIsFramed(s: Bytes) returns (lines: seq<Bytes>)
    requires DecodeHeader(s).Success?
    ensures Begins(s, lines)
  {
    hide DecodeFrom, Frames, StoreAll, LE, UnLE, LineAt, Store;
    var size := Size(s) + 4;
    lines := DecodedIsFrames(s, 4, size, map[]);
    LittleEndianRestored(s[..4]);
    assert s[..size] == s[..4] + s[4..size];
  }

  lemma FramedDecodes(s: Bytes, lines: seq<Bytes>)
    requires Begins(s, lines)
    ensures |s| >= 4 && Size(s) == |Frames(lines)| && DecodeHeader(s) == Success(StoreAll(map[], lines))
  {
    hide Frames, StoreAll, LE, DecodeFrom;
    var head, body := LE(|Frames(lines)|, 4), Frames(lines);
    var after := s[|head + body|..];
    assert s == head + body + after;
    SizeOfPacked(|body|, s);
    DecodeReadsFrames(head, lines, after, map[]);
  }

  // ---------------------------------------------------------------- round trip

  /** The items of a dictionary in any order. */
  predicate ItemsOf(fields: seq<Field>, d: map<Bytes, Bytes>)
  {
    && (forall f <- fields :: f.key in d && d[f.key] == f.value)
    && (forall k <- d :: exists f <- fields :: f.key == k)
    && (forall i, j :: 0 <= i < j < |fields| ==> fields[i].key != fields[j].key)
  }

  lemma {:induction false} FirstEquals(line: Bytes, n: nat)
    requires n < |line| && line[n] == EQUALS && EQUALS !in line[..n]
    ensures FindEquals(line) == Some(n)
  {
    if n > 0 {
      assert line[..n][0] == line[0];
      assert forall i :: 0 <= i < n - 1 ==> line[1..][i] == line[..n][i + 1];
      FirstEquals(line[1..], n - 1);
    }
  }

  lemma StrippedStays(k: Bytes)
    requires Stripped(k)
    ensures Strip(k) == k
  {
  }

  lemma LineStores(f: Field, d: map<Bytes, Bytes>)
    requires Stripped(f.key) && EQUALS !in f.key
    ensures EQUALS in Line(f) && Store(d, Line(f)) == d[f.key := f.value]
  {
    var line, n := Line(f), |f.key|;
    assert line[..n] == f.key;
    FirstEquals(line, n);
    StrippedStays(f.key);
    assert line[..n] == f.key && line[n + 1..] == f.value;
  }

  /** Keys without `=` and without surrounding spaces. */
  predicate Plain(fields: seq<Field>)
  {
    forall f <- fields :: Stripped(f.key) && EQUALS !in f.key
  }

  lemma {:induction false} LinesHaveEquals(fields: seq<Field>)
    ensures forall line <- Lines(fields) :: EQUALS in line
    decreases |fields|
  {
    if fields != [] {
      LinesHaveEquals(fields[1..]);
      assert Line(fields[0])[|fields[0].key|] == EQUALS;
    }
  }

  lemma StoreFirst(fields: seq<Field>, d: map<Bytes, Bytes>)
    requires fields != [] && Plain(fields) && forall line <- Lines(fields) :: EQUALS in line
    ensures forall line <- Lines(fields[1..]) :: EQUALS in line
    ensures Plain(fields[1..])
    ensures StoreAll(d, Lines(fields)) == StoreAll(d[fields[0].key := fields[0].value], Lines(fields[1..]))
  {
    LineStores(fields[0], d);
    assert Lines(fields)[1..] == Lines(fields[1..]);
    LinesHaveEquals(fields[1..]);
  }

  /** A key that no item has keeps its value. */
  lemma {:induction false} OthersKept(fields: seq<Field>, d: map<Bytes, Bytes>, k: Bytes)
    requires Plain(fields) && forall f <- fields :: f.key != k
    requires forall line <- Lines(fields) :: EQUALS in line
    ensures k in StoreAll(d, Lines(fields)) <==> k in d
    ensures k in d ==> StoreAll(d, Lines(fields))[k] == d[k]
    decreases |fields|
  {
    hide Store, Line, Stripped;
    if fields != [] {
      StoreFirst(fields, d);
      assert fields[0] in fields;
      OthersKept(fields[1..], d[fields[0].key := fields[0].value], k);
    }
  }

  /** With distinct keys, every item is in the dictionary. */
  lemma {:induction false} ItemStored(fields: seq<Field>, d: map<Bytes, Bytes>, i: nat)
    requires Plain(fields) && i < |fields| && forall a, b :: 0 <= a < b < |fields| ==> fields[a].key != fields[b].key
    requires forall line <- Lines(fields) :: EQUALS in line
    ensures fields[i].key in StoreAll(d, Lines(fields)) && StoreAll(d, Lines(fields))[fields[i].key] == fields[i].value
    decreases |fields|
  {
    hide Store, Line, Stripped;
    StoreFirst(fields, d);
    var rest, d' := fields[1..], d[fields[0].key := fields[0].value];
    if i == 0 {
      OthersKept(rest, d', fields[0].key);
    } else {
      ItemStored(rest, d', i - 1);
    }
  }

  lemma {:induction false} StripStrips(s: Bytes)
    ensures Stripped(Strip(s)) && forall b <- Strip(s) :: b in s
  {
    LeftStripped(s);
    RightStripped(LStrip(s));
  }

  /** Stripping takes spaces, tabs and line ends off both ends and nothing else. */
  lemma StripTakesSpaces(s: Bytes) returns (left: Bytes, right: Bytes)
    ensures s == left + Strip(s) + right && forall b <- left + right :: b == 32 || 9 <= b <= 13
    ensures Strip(s) != [] ==> var t := Strip(s);
      t[0] != 32 && !(9 <= t[0] <= 13) && t[|t| - 1] != 32 && !(9 <= t[|t| - 1] <= 13)
  {
    left := LeftSpaces(s);
    right := RightSpaces(LStrip(s));
    StripStrips(s);
    hide LStrip, RStrip;
    assert s == left + (RStrip(LStrip(s)) + right);
  }

  lemma {:induction false} LeftSpaces(s: Bytes) returns (left: Bytes)
    ensures s == left + LStrip(s) && forall b <- left :: b == 32 || 9 <= b <= 13
    decreases |s|
  {
    left := [];
    if s != [] && IsSpace(s[0]) {
      var rest := LeftSpaces(s[1..]);
      left := [s[0]] + rest;
      assert s == [s[0]] + s[1..];
    }
  }

  lemma {:induction false} RightSpaces(s: Bytes) returns (right: Bytes)
    ensures s == RStrip(s) + right && forall b <- right :: b == 32 || 9 <= b <= 13
    decreases |s|
  {
    right := [];
    if s != [] && IsSpace(s[|s| - 1]) {
      var rest := RightSpaces(s[..|s| - 1]);
      right := rest + [s[|s| - 1]];
      assert s == s[..|s| - 1] + [s[|s| - 1]];
    }
  }

  lemma {:induction false} LeftStripped(s: Bytes)
    ensures var r := LStrip(s); (r == [] || !IsSpace(r[0])) && forall b <- r :: b in s
    decreases |s|
  {
    if s != [] && IsSpace(s[0]) {
      LeftStripped(s[1..]);
    }
  }

  lemma {:induction false} RightStripped(s: Bytes)
    requires s == [] || !IsSpace(s[0])
    ensures Stripped(RStrip(s)) && forall b <- RStrip(s) :: b in s
    decreases |s|
  {
    if s != [] && IsSpace(s[|s| - 1]) {
      RightStripped(s[..|s| - 1]);
    }
  }

  ghost predicate PlainKeys(d: map<Bytes, Bytes>)
  {
    forall k <- d :: Stripped(k) && EQUALS !in k
  }

  lemma StoredKeyIsPlain(d: map<Bytes, Bytes>, line: Bytes)
    requires EQUALS in line && PlainKeys(d)
    ensures PlainKeys(Store(d, line))
  {
    var k := FindEquals(line).value;
    StripStrips(line[..k]);
  }

  /** Whatever is decoded has plain keys. */
  lemma {:induction false} StoredKeysArePlain(d: map<Bytes, Bytes>, lines: seq<Bytes>)
    requires PlainKeys(d) && forall line <- lines :: EQUALS in line
    ensures PlainKeys(StoreAll(d, lines))
    decreases |lines|
  {
    hide Store, PlainKeys;
    if lines != [] {
      StoredKeyIsPlain(d, lines[0]);
      StoredKeysArePlain(Store(d, lines[0]), lines[1..]);
    }
  }

  /**
   For every dictionary, in every order of its items, the encoded header followed by any data
   decodes to the dictionary exactly when no key has an `=` or surrounding spaces; its size
   field ends where the data begins; and a reader that needs more than four bytes has enough
   exactly when the header is not empty or some data follows.
   */
  lemma HeaderRoundTrip(fields: seq<Field>, d: map<Bytes, Bytes>, data: Bytes)
    requires ItemsOf(fields, d) && Encode(fields).Some?
    ensures DecodeHeader(Encode(fields).value + data) == Success(d) <==> forall k <- d :: Stripped(k) && EQUALS !in k
    ensures var e := Encode(fields).value;
      && |e + data| >= 4 && Size(e + data) + 4 == |e| && (e + data)[Size(e + data) + 4..] == data
      && (Complete(e + data) <==> fields != [] || data != [])
  {
    var e, lines := Encode(fields).value, Lines(fields);
    LinesHaveEquals(fields);
    assert Begins(e + data, lines);
    FramedDecodes(e + data, lines);
    assert fields == [] ==> Frames(lines) == [];
    hide Strip, Stripped, StoreAll, DecodeHeader;
    if Plain(fields) {
      DictionaryStored(fields, d);
    } else {
      assert PlainKeys(map[]);
      StoredKeysArePlain(map[], lines);
    }
  }

  lemma DictionaryStored(fields: seq<Field>, d: map<Bytes, Bytes>)
    requires ItemsOf(fields, d) && Plain(fields)
    ensures forall line <- Lines(fields) :: EQUALS in line
    ensures StoreAll(map[], Lines(fields)) == d
  {
    hide Lines, StoreAll, Plain, ItemsOf;
    LinesHaveEquals(fields);
    var stored := StoreAll(map[], Lines(fields));
    forall k ensures (k in stored <==> k in d) && (k in d ==> k in stored && stored[k] == d[k]) {
      KeyStored(fields, d, k);
    }
  }

  lemma KeyStored(fields: seq<Field>, d: map<Bytes, Bytes>, k: Bytes)
    requires ItemsOf(fields, d) && Plain(fields) && forall line <- Lines(fields) :: EQUALS in line
    ensures var stored := StoreAll(map[], Lines(fields));
      (k in stored <==> k in d) && (k in d ==> k in stored && stored[k] == d[k])
  {
    hide Lines, StoreAll, Stripped;
    if k in d {
      var i :| 0 <= i < |fields| && fields[i].key == k;
      ItemStored(fields, map[], i);
    } else {
      OthersKept(fields, map[], k);
    }
  }

  // ---------------------------------------------------------------- the reader

  /** A blocking socket that delivers a byte stream in non-empty chunks and then ends. */
  class Socket {
    var chunks: seq<Bytes>

    constructor (chunks: seq<Bytes>)
      ensures this.chunks == chunks
    {
      this.chunks := chunks;
    }

    ghost predicate Valid()
      reads this
    {
      forall c <- chunks :: c != []
    }

    /** `recv`: the next chunk, or nothing at the end. */
    method Recv() returns (d: Bytes)
      requires Valid()
      modifies this
      ensures Valid() && d + Join(chunks) == Join(old(chunks))
      ensures d == [] <==> old(chunks) == []
      ensures chunks == if old(chunks) == [] then [] else old(chunks)[1..]
    {
      if chunks == [] {
        return [];
      }
      assert forall c <- chunks[1..] :: c in chunks;
      assert chunks[0] in chunks;
      d, chunks := chunks[0], chunks[1..];
    }
  }

  /** An in-memory file: contents and a position. */
  class Buffer {
    var data: Bytes
    var pos: nat

    constructor ()
      ensures data == [] && pos == 0
    {
      data, pos := [], 0;
    }

    method Write(d: Bytes)
      requires pos <= |data|
      modifies this
      ensures pos == old(pos) + |d|
      ensures data == old(data)[..old(pos)] + d + if pos < |old(data)| then old(data)[pos..] else []
    {
      var end := pos + |d|;
      data := data[..pos] + d + if end < |data| then data[end..] else [];
      pos := end;
    }

    /** Appending at the end. */
    method Append(d: Bytes)
      requires pos == |data|
      modifies this
      ensures data == old(data) + d && pos == |data|
    {
      Write(d);
    }

    /** Moving what is left back to the start. */
    method MoveToStart(leftovers: Bytes)
      requires |leftovers| <= |data|
      modifies this
      ensures data == leftovers && pos == |data|
    {
      Truncate(|leftovers|);
      Seek(0);
      Write(leftovers);
    }

    method Truncate(n: nat)
      requires n <= |data|
      modifies this
      ensures data == old(data)[..n] && pos == if old(pos) < n then old(pos) else n
    {
      data := data[..n];
      pos := if pos < n then pos else n;
    }

    method Seek(n: nat)
      modifies this
      ensures pos == n && data == old(data)
    {
      pos := n;
    }
  }

  function Join(chunks: seq<Bytes>): Bytes
  {
    if chunks == [] then [] else chunks[0] + Join(chunks[1..])
  }

  lemma NothingJoined()
    ensures Join([]) == []
  {
  }

  /** What makes the reader stop reading. */
  predicate Complete(s: Bytes)
  {
    |s| > 4 && |s| - 4 >= Size(s)
  }

  /** The same dictionary, or failures both. */
  predicate Agree(r: Result<map<Bytes, Bytes>, Error>, r': Result<map<Bytes, Bytes>, Error>)
  {
    r == r' || (r.Failure? && r'.Failure?)
  }

  lemma LineIgnoresRest(s: Bytes, more: Bytes, start: nat, size: nat)
    requires start < size <= |s|
    ensures LineAt(s, start, size) == LineAt(s + more, start, size)
            || (LineAt(s, start, size).Failure? && LineAt(s + more, start, size).Failure?)
  {
    if start + 4 <= |s| {
      assert (s + more)[start..][..4] == s[start..][..4];
      var n := Size(s[start..]);
      if start + 4 + n <= size {
        assert (s + more)[start + 4..start + 4 + n] == s[start + 4..start + 4 + n];
      }
    }
  }

  lemma {:induction false} DecodeIgnoresRest(s: Bytes, more: Bytes, start: nat, size: nat, d: map<Bytes, Bytes>)
    requires size <= |s|
    ensures Agree(DecodeFrom(s, start, size, d), DecodeFrom(s + more, start, size, d))
    decreases size - start
  {
    hide LineAt, Store, DecodeFrom;
    if start >= size {
      DecodeOver(s, start, size, d);
      DecodeOver(s + more, start, size, d);
    } else {
      LineIgnoresRest(s, more, start, size);
      DecodeStep(s, start, size, d);
      DecodeStep(s + more, start, size, d);
      if LineAt(s, start, size).Success? {
        var line := LineAt(s, start, size).value;
        if EQUALS in line {
          DecodeIgnoresRest(s, more, start + 4 + |line|, size, Store(d, line));
        }
      }
    }
  }

  lemma CompleteStays(s: Bytes, more: Bytes)
    requires Complete(s)
    ensures Complete(s + more) && Size(s + more) == Size(s)
    ensures s[Size(s) + 4..] + more == (s + more)[Size(s) + 4..]
    ensures Agree(DecodeHeader(s), DecodeHeader(s + more))
  {
    assert (s + more)[..4] == s[..4];
    DecodeIgnoresRest(s, more, 4, Size(s) + 4, map[]);
  }

  /**
   `read_ros_handshake_header`: for every split of the stream into non-empty chunks, the
   reader decodes the first header of the bytes it had and the stream, and leaves what follows
   to the buffer and the socket, nothing lost and nothing read twice. It gives up, keeping
   all bytes, exactly when the stream has no chunk left or ends before the header does.
   */
  method ReadHeader(sock: Socket, b: Buffer) returns (r: Result<map<Bytes, Bytes>, Error>)
    requires sock.Valid() && b.pos == |b.data|
    modifies sock, b
    ensures sock.Valid() && b.pos == |b.data|
    ensures var all := old(b.data + Join(sock.chunks));
      if old(sock.chunks) != [] && Complete(all) then
        Agree(r, DecodeHeader(all)) && b.data + Join(sock.chunks) == all[Size(all) + 4..]
      else
        r == Failure(Terminated) && b.data == all && sock.chunks == []
  {
    hide Join, DecodeHeader, Size;
    ghost var all := b.data + Join(sock.chunks);
    NothingJoined();
    var header: Option<Bytes> := None;
    while header.None?
      invariant sock.Valid() && b.pos == |b.data|
      invariant header.None? ==> b.data + Join(sock.chunks) == all
      invariant header.None? ==> sock.chunks == old(sock.chunks) || (old(sock.chunks) != [] && !Complete(b.data))
      invariant header.Some? ==>
        && old(sock.chunks) != [] && Complete(all) && Agree(DecodeHeader(header.value), DecodeHeader(all))
        && b.data + Join(sock.chunks) == all[Size(all) + 4..]
      decreases header.None?, |sock.chunks|
    {
      var d := sock.Recv();
      if d == [] {
        return Failure(Terminated);
      }
      Associative(b.data, d, Join(sock.chunks));
      b.Append(d);
      if b.pos > 4 {
        var bval := b.data;
        var size := Size(bval);
        if b.pos - 4 >= size {
          CompleteStays(bval, Join(sock.chunks));
          header := Some(bval);
          b.MoveToStart(bval[size + 4..]);
        }
      }
    }
    r := Decode(header.value);
  }
}
