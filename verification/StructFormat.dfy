/**
 Fixed-width little-endian packing as Python's `struct` module does it, decimal repeat
 counts in format strings, and the run-length compression of format strings
 (`reduce_pattern`).
 */
module StructFormat {
  import opened Wrappers
  import opened Sequences

  // ---------------------------------------------------------------- little endian

  function Pow(b: nat, e: nat): (r: nat)
    ensures b >= 1 ==> r >= 1
  {
    if e == 0 then 1 else b * Pow(b, e - 1)
  }

  const UINT32_LIMIT: nat := 0x1_0000_0000

  function LE(n: nat, w: nat): (bs: seq<Byte>)
    ensures |bs| == w
  {
    if w == 0 then [] else [n % 256] + LE(n / 256, w - 1)
  }

  function UnLE(bs: seq<Byte>): (n: nat)
    ensures n < Pow(256, |bs|)
  {
    if bs == [] then 0 else
      assert Pow(256, |bs|) == 256 * Pow(256, |bs[1..]|);
      bs[0] + 256 * UnLE(bs[1..])
  }

  lemma {:induction false} LittleEndianRoundTrip(n: nat, w: nat)
    requires n < Pow(256, w)
    ensures UnLE(LE(n, w)) == n
  {
    if w > 0 {
      assert Pow(256, w) == 256 * Pow(256, w - 1);
      LittleEndianRoundTrip(n / 256, w - 1);
      assert LE(n, w)[1..] == LE(n / 256, w - 1);
    }
  }

  /** Any bytes are the packing of the number they unpack to. */
  lemma {:induction false} LittleEndianRestored(bs: seq<Byte>)
    ensures LE(UnLE(bs), |bs|) == bs
  {
    if bs != [] {
      LittleEndianRestored(bs[1..]);
      LowestByte(bs[0], UnLE(bs[1..]));
    }
  }

  lemma LowestByte(b: Byte, n: nat)
    ensures (b + 256 * n) % 256 == b && (b + 256 * n) / 256 == n
  {
  }

  /** The lowest byte comes first. */
  lemma {:induction false} LittleEndianByte(n: nat, w: nat, i: nat)
    requires i < w
    ensures LE(n, w)[i] == n / Pow(256, i) % 256
  {
    if i > 0 {
      LittleEndianByte(n / 256, w - 1, i - 1);
      DivideTwice(n, 256, Pow(256, i - 1));
    }
  }

  lemma DivideTwice(n: nat, a: nat, b: nat)
    requires a > 0 && b > 0
    ensures a * b > 0 && n / a / b == n / (a * b)
  {
    var q, r', r := n / a / b, n / a % b, n % a;
    assert n / a == b * q + r';
    assert n == a * (n / a) + r;
    Rearranged(a, b, q, r', r);
    InsideProduct(a, b, r', r);
    QuotientIs(n, a * b, q, a * r' + r);
  }

  lemma Rearranged(a: nat, b: nat, q: nat, r': nat, r: nat)
    ensures a * (b * q + r') + r == (a * b) * q + (a * r' + r)
  {
    assert a * (b * q + r') == a * (b * q) + a * r';
    assert a * (b * q) == (a * b) * q;
  }

  lemma InsideProduct(a: nat, b: nat, r': nat, r: nat)
    requires r' < b && r < a
    ensures a * r' + r < a * b
  {
    AtLeastTimes(a, b - r');
    assert a * (b - r') == a * b - a * r';
  }

  lemma AtLeastTimes(m: nat, d: nat)
    requires d >= 1
    ensures m * d >= m
  {
  }

  lemma QuotientIs(n: int, m: nat, q: int, r: nat)
    requires r < m && n == m * q + r
    ensures n / m == q
  {
    var q' := n / m;
    assert n == m * q' + n % m;
    OneQuotient(m, q, q', r, n % m);
  }

  lemma OneQuotient(m: nat, q: int, q': int, r: nat, r': nat)
    requires r < m && r' < m && m * q + r == m * q' + r'
    ensures q == q'
  {
    if q < q' {
      StrictlyBelow(m, q, q', r);
    } else if q > q' {
      StrictlyBelow(m, q', q, r');
    }
  }

  lemma StrictlyBelow(m: nat, q: int, q': int, r: nat)
    requires q < q' && r < m
    ensures m * q + r < m * q'
  {
    AtLeastTimes(m, q' - q);
    assert m * (q' - q) == m * q' - m * q;
  }

  /** Byte `i` of a packing counts 256 to the power of `i`. */
  lemma UnpackedByte(bs: seq<Byte>, i: nat)
    requires i < |bs|
    ensures UnLE(bs) / Pow(256, i) % 256 == bs[i]
  {
    LittleEndianRestored(bs);
    LittleEndianByte(UnLE(bs), |bs|, i);
  }

  /** The four bytes of an unsigned 32-bit number, and back. */
  lemma FourBytes(n: nat)
    requires n < UINT32_LIMIT
    ensures LE(n, 4) == [n % 256, n / 256 % 256, n / 0x1_0000 % 256, n / 0x100_0000]
  {
    assert Pow(256, 1) == 256 && Pow(256, 2) == 0x1_0000 && Pow(256, 3) == 0x100_0000;
    LittleEndianByte(n, 4, 0);
    LittleEndianByte(n, 4, 1);
    LittleEndianByte(n, 4, 2);
    LittleEndianByte(n, 4, 3);
  }

  lemma FromFourBytes(bs: seq<Byte>)
    requires |bs| == 4
    ensures UnLE(bs) == bs[0] + 256 * (bs[1] as int) + 0x1_0000 * (bs[2] as int) + 0x100_0000 * (bs[3] as int)
  {
    assert UnLE(bs[3..]) == bs[3] by { assert bs[3..][1..] == []; }
    assert UnLE(bs[2..]) == bs[2] + 256 * UnLE(bs[3..]) by { assert bs[2..][1..] == bs[3..]; }
    assert UnLE(bs[1..]) == bs[1] + 256 * UnLE(bs[2..]) by { assert bs[1..][1..] == bs[2..]; }
  }

  // ---------------------------------------------------------------- type codes

  predicate IsCode(c: char)
  {
    c == 'b' || c == 'B' || c == 'h' || c == 'H' || c == 'i' || c == 'I' || c == 'q' || c == 'Q' || c == 'f' || c == 'd'
  }

  function Width(c: char): (w: nat)
  {
    match c
    case 'h' => 2 case 'H' => 2
    case 'i' => 4 case 'I' => 4 case 'f' => 4
    case 'q' => 8 case 'Q' => 8 case 'd' => 8
    case _ => 1
  }

  predicate Signed(c: char) { c == 'b' || c == 'h' || c == 'i' || c == 'q' }

  function Modulus(c: char): (m: nat)
    ensures m == Pow(256, Width(c)) && m >= 256 && m % 2 == 0
  {
    assert Pow(256, 1) == 256;
    assert Pow(256, 2) == 65536;
    assert Pow(256, 3) == 0x100_0000;
    assert Pow(256, 4) == 0x1_0000_0000;
    assert Pow(256, 5) == 0x100_0000_0000;
    assert Pow(256, 6) == 0x1_0000_0000_0000;
    assert Pow(256, 7) == 0x100_0000_0000_0000;
    assert Pow(256, 8) == 0x1_0000_0000_0000_0000;
    if Width(c) == 1 then 0x100 else if Width(c) == 2 then 0x1_0000
    else if Width(c) == 4 then 0x1_0000_0000 else 0x1_0000_0000_0000_0000
  }

  /** The numbers `struct` accepts for a code; a float is its raw bit pattern. */
  predicate InRange(c: char, n: int)
  {
    if Signed(c) then -(Modulus(c) / 2) <= n < Modulus(c) / 2 else 0 <= n < Modulus(c)
  }

  function NumBytes(c: char, n: int): (bs: seq<Byte>)
    requires InRange(c, n)
    ensures |bs| == Width(c)
  {
    LE(if n < 0 then n + Modulus(c) else n, Width(c))
  }

  function NumOf(c: char, bs: seq<Byte>): (n: int)
    requires |bs| == Width(c)
    ensures InRange(c, n)
  {
    var u := UnLE(bs);
    if Signed(c) && u >= Modulus(c) / 2 then u - Modulus(c) else u
  }

  lemma NumRoundTrip(c: char, n: int)
    requires InRange(c, n)
    ensures NumOf(c, NumBytes(c, n)) == n
  {
    LittleEndianRoundTrip(if n < 0 then n + Modulus(c) else n, Width(c));
  }

  // ---------------------------------------------------------------- decimal numbers

  predicate IsDigit(c: char) { '0' <= c <= '9' }

  function Digit(d: nat): (c: char)
    requires d < 10
    ensures IsDigit(c) && DigitVal(c) == d
  {
    '0' + d as char
  }

  function DigitVal(c: char): (d: nat)
    ensures d < 10
  {
    if IsDigit(c) then c as int - '0' as int else 0
  }

  /** `str(n)` for a non-negative integer. */
  function Dec(n: nat): (s: string)
    ensures |s| >= 1
    ensures forall i :: 0 <= i < |s| ==> IsDigit(s[i])
  {
    if n < 10 then [Digit(n)] else Dec(n / 10) + [Digit(n % 10)]
  }

  /** The number a string of digits denotes when `acc` has been read before it. */
  function DecVal(s: string, acc: nat): nat
  {
    if s == [] then acc else DecVal(s[1..], 10 * acc + DigitVal(s[0]))
  }

  lemma {:induction false} DecValAppend(s: string, t: string, acc: nat)
    ensures DecVal(s + t, acc) == DecVal(t, DecVal(s, acc))
  {
    if s == [] {
      assert s + t == t;
    } else {
      DecValAppend(s[1..], t, 10 * acc + DigitVal(s[0]));
      assert (s + t)[1..] == s[1..] + t;
    }
  }

  lemma {:induction false} DecRoundTrip(n: nat)
    ensures DecVal(Dec(n), 0) == n
  {
    if n >= 10 {
      DecRoundTrip(n / 10);
      DecValAppend(Dec(n / 10), [Digit(n % 10)], 0);
      assert DecVal([Digit(n % 10)], n / 10) == n;
    }
  }

  lemma {:induction false} DecValAcc(s: string, acc: nat)
    ensures DecVal(s, acc) == acc * Pow(10, |s|) + DecVal(s, 0)
  {
    if s != [] {
      var d := DigitVal(s[0]);
      DecValAcc(s[1..], 10 * acc + d);
      DecValAcc(s[1..], d);
      Spread(acc, d, Pow(10, |s| - 1));
    }
  }

  /** Digit `i` of a string of digits counts ten to the power of the digits behind it. */
  lemma {:induction false} DecimalPlace(s: string, i: nat)
    requires i < |s| && forall j :: 0 <= j < |s| ==> IsDigit(s[j])
    ensures DecVal(s, 0) < Pow(10, |s|)
    ensures DecVal(s, 0) / Pow(10, |s| - 1 - i) % 10 == s[i] as int - '0' as int
  {
    hide DecVal;
    var s', d := s[..|s| - 1], s[|s| - 1];
    LastDigit(s', d);
    assert s == s' + [d] && Pow(10, 0) == 1;
    var v := DecVal(s', 0);
    if i < |s'| {
      DecimalPlace(s', i);
      Shifted(v, DigitVal(d), Pow(10, |s'| - 1 - i));
    } else if s' != [] {
      DecimalPlace(s', 0);
    }
  }

  lemma Shifted(v: nat, d: nat, p: nat)
    requires d < 10 && p > 0
    ensures (10 * v + d) / (10 * p) == v / p
  {
    DivideTwice(10 * v + d, 10, p);
    QuotientIs(10 * v + d, 10, v, d);
  }

  lemma LastDigit(s: string, d: char)
    ensures DecVal(s + [d], 0) == 10 * DecVal(s, 0) + DigitVal(d)
    ensures s == [] ==> DecVal(s, 0) == 0
  {
    DecValAppend(s, [d], 0);
    assert [d][1..] == [];
  }

  lemma Spread(acc: nat, d: nat, p: nat)
    ensures (10 * acc + d) * p == acc * (10 * p) + d * p
  {
  }

  // ---------------------------------------------------------------- format strings

  /** One item of a format: a number, or a byte string of a given width. */
  datatype Item = Number(code: char) | Blob(width: nat)

  function Repeat<T>(x: T, n: nat): (r: seq<T>)
    ensures |r| == n && forall i :: 0 <= i < n ==> r[i] == x
  {
    seq(n, i => x)
  }

  lemma RepeatCons<T>(x: T, n: nat)
    requires n > 0
    ensures Repeat(x, n) == [x] + Repeat(x, n - 1) && Repeat(x, n)[1..] == Repeat(x, n - 1)
  {
  }

  /** The items of a format whose repeat count read so far is `count`; None for a malformed one. */
  function ParseFormat(p: string, count: Option<nat>): Option<seq<Item>>
  {
    if p == [] then
      if count.None? then Some([]) else None
    else if IsDigit(p[0]) then
      ParseFormat(p[1..], Some((if count.Some? then 10 * count.value else 0) + DigitVal(p[0])))
    else
      var n := if count.Some? then count.value else 1;
      var rest := ParseFormat(p[1..], None);
      if rest.None? then None
      else if p[0] == 's' then Some([Blob(n)] + rest.value)
      else if IsCode(p[0]) then Some(Repeat(Number(p[0]), n) + rest.value)
      else None
  }

  function Items(p: string): Option<seq<Item>>
  {
    ParseFormat(p, None)
  }

  function ItemSize(i: Item): nat
  {
    match i case Number(c) => Width(c) case Blob(n) => n
  }

  /** `struct.calcsize` */
  function CalcSize(items: seq<Item>): nat
  {
    if items == [] then 0 else ItemSize(items[0]) + CalcSize(items[1..])
  }

  lemma {:induction false} ParseDigits(s: string, rest: string, acc: nat)
    requires forall i :: 0 <= i < |s| ==> IsDigit(s[i])
    ensures ParseFormat(s + rest, Some(acc)) == ParseFormat(rest, Some(DecVal(s, acc)))
  {
    if s == [] {
      assert s + rest == rest;
    } else {
      assert (s + rest)[1..] == s[1..] + rest;
      ParseDigits(s[1..], rest, 10 * acc + DigitVal(s[0]));
    }
  }

  /** A repeat count in front of a format. */
  lemma ParseCount(s: string, rest: string)
    requires |s| >= 1 && forall i :: 0 <= i < |s| ==> IsDigit(s[i])
    ensures Items(s + rest) == ParseFormat(rest, Some(DecVal(s, 0)))
  {
    assert (s + rest)[1..] == s[1..] + rest;
    ParseDigits(s[1..], rest, DigitVal(s[0]));
  }

  // ---------------------------------------------------------------- reduce_pattern

  /** The digits the loop keeps out of runs: its list is built from `range(0, 9)`, so '9' is missing. */
  predicate Ungrouped(c: char) { '0' <= c <= '8' }

  /** How many leading characters one run takes; an ungrouped digit is always a run of its own. */
  function RunLength(p: string): (k: nat)
    requires p != []
    ensures 1 <= k <= |p|
    ensures forall i :: 0 <= i < k ==> p[i] == p[0]
    ensures k > 1 ==> !Ungrouped(p[0])
    ensures k < |p| ==> p[k] != p[0] || Ungrouped(p[0])
  {
    if |p| > 1 && p[1] == p[0] && !Ungrouped(p[0]) then 1 + RunLength(p[1..]) else 1
  }

  function Counted(k: nat, c: char): string
  {
    if k > 1 then Dec(k) + [c] else [c]
  }

  function Runs(p: string): string
  {
    if p == [] then [] else Counted(RunLength(p), p[0]) + Runs(p[RunLength(p)..])
  }

  function Reduce(p: string): string
  {
    if |p| <= 1 || '%' in p then p else Runs(p)
  }

  lemma {:induction false} RunLengthOfRun(c: char, k: nat, rest: string)
    requires k >= 1 && (k > 1 ==> !Ungrouped(c))
    requires rest != [] ==> rest[0] != c || Ungrouped(c)
    ensures RunLength(Repeat(c, k) + rest) == k
  {
    var p := Repeat(c, k) + rest;
    if k > 1 {
      assert p[1..] == Repeat(c, k - 1) + rest;
      RunLengthOfRun(c, k - 1, rest);
    }
  }

  /** A finished run followed by something that does not continue it. */
  lemma RunsOfRun(c: char, k: nat, rest: string)
    requires k >= 1 && (k > 1 ==> !Ungrouped(c))
    requires rest != [] ==> rest[0] != c || Ungrouped(c)
    ensures Runs(Repeat(c, k) + rest) == Counted(k, c) + Runs(rest)
  {
    RunLengthOfRun(c, k, rest);
    assert (Repeat(c, k) + rest)[k..] == rest;
  }

  /** A run of one type code is its length in decimal and the code, and a code on its own stands as it is. */
  lemma RunsAreCounted(c: char, k: nat, rest: string)
    requires IsCode(c) && k >= 1 && k + |rest| > 1 && (rest != [] ==> rest[0] != c) && '%' !in rest
    ensures Reduce(Repeat(c, k) + rest) == (if k > 1 then Dec(k) else "") + [c] + Runs(rest)
  {
    RunsOfRun(c, k, rest);
    assert "" + [c] == [c];
  }

  lemma RunGrows(c: char, k: nat, rest: string)
    requires rest != [] && rest[0] == c
    ensures Repeat(c, k) + rest == Repeat(c, k + 1) + rest[1..]
  {
  }

  /** Emitting a finished run and starting the next one. */
  lemma RunFlushed(done: string, c: char, k: nat, rest: string)
    requires k >= 1 && (k > 1 ==> !Ungrouped(c))
    requires rest != [] ==> rest[0] != c || Ungrouped(c)
    ensures rest == [] ==> done + Counted(k, c) == done + Runs(Repeat(c, k) + rest)
    ensures rest != [] ==>
      done + Counted(k, c) + Runs(Repeat(rest[0], 1) + rest[1..]) == done + Runs(Repeat(c, k) + rest)
  {
    RunsOfRun(c, k, rest);
    Associative(done, Counted(k, c), Runs(rest));
    if rest != [] {
      assert Repeat(rest[0], 1) + rest[1..] == rest;
    }
  }

  /** The accumulating loop of `reduce_pattern`. */
  method ReducePattern(pattern: string) returns (r: string)
    ensures r == Reduce(pattern)
  {
    if |pattern| <= 1 || '%' in pattern {
      return pattern;
    }
    var prev, count, newPattern := pattern[0], 1, "";
    assert Repeat(prev, 1) + pattern[1..] == pattern;
    for i := 1 to |pattern|
      invariant count >= 1 && (count > 1 ==> !Ungrouped(prev))
      invariant newPattern + Runs(Repeat(prev, count) + pattern[i..]) == Runs(pattern)
    {
      var c := pattern[i];
      assert pattern[i..][1..] == pattern[i + 1..];
      if c == prev && !Ungrouped(c) {
        RunGrows(c, count, pattern[i..]);
        count := count + 1;
      } else {
        RunFlushed(newPattern, prev, count, pattern[i..]);
        if count > 1 {
          newPattern := newPattern + (Dec(count) + [prev]);
        } else {
          newPattern := newPattern + [prev];
        }
        prev, count := c, 1;
      }
    }
    assert pattern[|pattern|..] == [];
    RunFlushed(newPattern, prev, count, []);
    r := newPattern + (if count > 1 then Dec(count) + [prev] else [prev]);
  }

  // ---------------------------------------------------------------- losslessness

  function Numbers(p: string): (r: seq<Item>)
    ensures |r| == |p|
  {
    seq(|p|, i requires 0 <= i < |p| => Number(p[i]))
  }

  predicate AllCodes(p: string) { forall i :: 0 <= i < |p| ==> IsCode(p[i]) }

  lemma {:induction false} ItemsOfCodes(p: string)
    requires AllCodes(p)
    ensures Items(p) == Some(Numbers(p))
  {
    if p != [] {
      assert !IsDigit(p[0]) && p[0] != 's';
      ItemsOfCodes(p[1..]);
      assert Numbers(p) == Repeat(Number(p[0]), 1) + Numbers(p[1..]);
    }
  }

  lemma ParseCounted(k: nat, c: char, rest: string)
    requires k >= 1 && IsCode(c)
    requires Items(rest).Some?
    ensures Items(Counted(k, c) + rest) == Some(Repeat(Number(c), k) + Items(rest).value)
  {
    assert !IsDigit(c) && c != 's';
    assert ([c] + rest)[1..] == rest;
    if k > 1 {
      assert Dec(k) + [c] + rest == Dec(k) + ([c] + rest);
      ParseCount(Dec(k), [c] + rest);
      DecRoundTrip(k);
    }
  }

  lemma NumbersOfRun(p: string, k: nat)
    requires 1 <= k <= |p| && forall i :: 0 <= i < k ==> p[i] == p[0]
    ensures Numbers(p) == Repeat(Number(p[0]), k) + Numbers(p[k..])
  {
  }

  lemma {:induction false} RunsKeepItems(p: string)
    requires AllCodes(p)
    ensures Items(Runs(p)) == Some(Numbers(p))
  {
    if p != [] {
      var k := RunLength(p);
      RunsKeepItems(p[k..]);
      ParseCounted(k, p[0], Runs(p[k..]));
      NumbersOfRun(p, k);
    }
  }

  /** For a digit-free pattern of type codes the compressed format packs the same field sequence. */
  lemma ReduceIsLossless(p: string)
    requires AllCodes(p)
    ensures Items(Reduce(p)) == Items(p) == Some(Numbers(p))
  {
    ItemsOfCodes(p);
    RunsKeepItems(p);
  }

  // ---------------------------------------------------------------- counted patterns

  /** Two nines next to each other: the one digit the loop does not recognise. */
  predicate AdjacentNines(s: string)
  {
    exists i :: 1 <= i < |s| && s[i - 1] == '9' && s[i] == '9'
  }

  /** What a format of `n` items with code `c` (numbers, or one byte string) should mean. */
  function CountedItems(n: nat, c: char): seq<Item>
  {
    if c == 's' then [Blob(n)] else Repeat(Number(c), n)
  }

  lemma {:induction false} RunsKeepSafeDigits(s: string)
    requires forall i :: 0 <= i < |s| - 1 ==> IsDigit(s[i])
    requires s != [] ==> IsDigit(s[|s| - 1]) || IsCode(s[|s| - 1]) || s[|s| - 1] == 's'
    requires !AdjacentNines(s)
    ensures Runs(s) == s
  {
    if s != [] {
      var k := RunLength(s);
      assert k == 1;
      RunsKeepSafeDigits(s[1..]);
      assert s == [s[0]] + s[1..];
    }
  }

  lemma DigitsKept(s: string, t: string)
    requires forall i :: 0 <= i < |s| ==> IsDigit(s[i])
    requires forall i :: 0 <= i < |t| ==> IsDigit(t[i])
    ensures forall i :: 0 <= i < |s + t| ==> IsDigit((s + t)[i])
  {
  }

  lemma {:induction false} DecIsShort(k: nat)
    requires k >= 2
    ensures |Dec(k)| < k
  {
    if k >= 10 {
      DecIsShort(if k / 10 >= 2 then k / 10 else 2);
    }
  }

  lemma {:induction false} NinesValue(k: nat)
    ensures DecVal(Repeat('9', k), 0) == Pow(10, k) - 1
  {
    if k > 0 {
      NinesValue(k - 1);
      assert Repeat('9', k)[1..] == Repeat('9', k - 1);
      DecValAcc(Repeat('9', k - 1), 9);
    }
  }

  lemma {:induction false} PowBound(k: nat)
    requires k >= 2
    ensures 10 * k + 9 < Pow(10, k) - 1
  {
    if k == 2 {
      assert Pow(10, 2) == 10 * Pow(10, 1) == 100;
    } else {
      PowBound(k - 1);
    }
  }

  lemma {:induction false} PowMonotone(i: nat, j: nat)
    requires i <= j
    ensures Pow(10, i) <= Pow(10, j)
  {
    if i < j {
      PowMonotone(i, j - 1);
      assert Pow(10, j) == 10 * Pow(10, j - 1);
    }
  }

  /** A run of k nines becomes the digits of 10k + 9, a smaller number. */
  lemma CountedNines(k: nat)
    requires k >= 2
    ensures DecVal(Counted(k, '9'), 0) == 10 * k + 9 < DecVal(Repeat('9', k), 0)
    ensures |Counted(k, '9')| <= k
  {
    DecRoundTrip(k);
    DecValAppend(Dec(k), ['9'], 0);
    assert DecVal(['9'], k) == 10 * k + 9;
    NinesValue(k);
    PowBound(k);
    DecIsShort(k);
  }

  lemma MulMonotone(a: nat, x: nat, y: nat)
    requires x <= y
    ensures a * x <= a * y && x * a <= y * a
  {
    assert a * y == a * x + a * (y - x);
  }

  lemma Scale(a: nat, b: nat, x: nat, y: nat)
    requires a <= b && x <= y
    ensures a * x <= b * y
    ensures a < b && y >= 1 ==> a * x < b * y
  {
    MulMonotone(a, x, y);
    if a < b {
      MulMonotone(y, a + 1, b);
      assert (a + 1) * y == a * y + y;
    }
  }

  /** Replacing the leading digits and the tail of a numeral by smaller ones. */
  lemma ConcatShrinks(h: string, t: string, h': string, t': string)
    requires |t'| <= |t| && DecVal(t', 0) <= DecVal(t, 0) && DecVal(h', 0) <= DecVal(h, 0)
    ensures DecVal(h' + t', 0) <= DecVal(h + t, 0)
    ensures DecVal(h', 0) < DecVal(h, 0) || DecVal(t', 0) < DecVal(t, 0) ==> DecVal(h' + t', 0) < DecVal(h + t, 0)
  {
    DecValAppend(h, t, 0);
    DecValAppend(h', t', 0);
    DecValAcc(t, DecVal(h, 0));
    DecValAcc(t', DecVal(h', 0));
    PowMonotone(|t'|, |t|);
    Scale(DecVal(h', 0), DecVal(h, 0), Pow(10, |t'|), Pow(10, |t|));
  }

  lemma NinesSplit(s: string, k: nat)
    requires 1 <= k <= |s| && AdjacentNines(s)
    requires k == 1 && (|s| > 1 && s[0] == '9' ==> s[1] != '9')
    ensures AdjacentNines(s[k..])
  {
    var i :| 1 <= i < |s| && s[i - 1] == '9' && s[i] == '9';
    assert s[k..][i - 2] == '9' && s[k..][i - 1] == '9';
  }

  /** What one run of digits turns into. */
  lemma RunOfDigitsShrinks(k: nat, c: char)
    requires k >= 1 && IsDigit(c) && (k > 1 ==> c == '9')
    ensures |Counted(k, c)| <= k
    ensures forall i :: 0 <= i < |Counted(k, c)| ==> IsDigit(Counted(k, c)[i])
    ensures DecVal(Counted(k, c), 0) <= DecVal(Repeat(c, k), 0)
    ensures k > 1 ==> DecVal(Counted(k, c), 0) < DecVal(Repeat(c, k), 0)
  {
    if k > 1 {
      CountedNines(k);
    } else {
      assert Counted(k, c) == Repeat(c, 1);
    }
  }

  /** On digits the compression never lengthens, never increases, and decreases exactly at adjacent nines. */
  lemma {:induction false} RunsShrinkDigits(s: string)
    requires forall i :: 0 <= i < |s| ==> IsDigit(s[i])
    ensures |Runs(s)| <= |s|
    ensures forall i :: 0 <= i < |Runs(s)| ==> IsDigit(Runs(s)[i])
    ensures s != [] ==> Runs(s) != []
    ensures DecVal(Runs(s), 0) <= DecVal(s, 0)
    ensures AdjacentNines(s) ==> DecVal(Runs(s), 0) < DecVal(s, 0)
  {
    if s != [] {
      var k := FirstRun(s);
      RunsShrinkDigits(s[k..]);
      RunThenRest(k, s[0], s[k..], Runs(s[k..]));
      if AdjacentNines(s) && k == 1 {
        NinesSplit(s, k);
      }
    }
  }

  lemma FirstRun(s: string) returns (k: nat)
    requires s != [] && forall i :: 0 <= i < |s| ==> IsDigit(s[i])
    ensures 1 <= k <= |s| && s == Repeat(s[0], k) + s[k..]
    ensures k > 1 ==> s[0] == '9'
    ensures k == 1 && |s| > 1 && s[0] == '9' ==> s[1] != '9'
    ensures Runs(s) == Counted(k, s[0]) + Runs(s[k..])
  {
    k := RunLength(s);
  }

  /** A run of digits and the compressed tail, against the run and the tail. */
  lemma RunThenRest(k: nat, c: char, rest: string, rest': string)
    requires k >= 1 && IsDigit(c) && (k > 1 ==> c == '9')
    requires |rest'| <= |rest| && DecVal(rest', 0) <= DecVal(rest, 0)
    requires forall i :: 0 <= i < |rest'| ==> IsDigit(rest'[i])
    ensures |Counted(k, c) + rest'| <= |Repeat(c, k) + rest|
    ensures forall i :: 0 <= i < |Counted(k, c) + rest'| ==> IsDigit((Counted(k, c) + rest')[i])
    ensures DecVal(Counted(k, c) + rest', 0) <= DecVal(Repeat(c, k) + rest, 0)
    ensures k > 1 || DecVal(rest', 0) < DecVal(rest, 0) ==>
      DecVal(Counted(k, c) + rest', 0) < DecVal(Repeat(c, k) + rest, 0)
  {
    RunOfDigitsShrinks(k, c);
    DigitsKept(Counted(k, c), rest');
    ConcatShrinks(Repeat(c, k), rest, Counted(k, c), rest');
  }

  lemma RunsOfLetter(c: char)
    ensures Runs([c]) == [c]
  {
    assert Runs([c]) == [c] + Runs([]);
  }

  lemma FirstOfRuns(s: string)
    requires s != []
    ensures Runs(s) == Counted(RunLength(s), s[0]) + Runs(s[RunLength(s)..])
  {
    hide Counted, RunLength;
  }

  lemma FirstRunOf(s: string)
    requires s != []
    ensures s == Repeat(s[0], RunLength(s)) + s[RunLength(s)..]
  {
    hide RunLength;
  }

  lemma {:induction false} RunsBeforeLetter(s: string, c: char)
    requires forall i :: 0 <= i < |s| ==> IsDigit(s[i])
    requires !IsDigit(c)
    ensures Runs(s + [c]) == Runs(s) + [c]
  {
    hide Runs, RunLength, Counted, Repeat, IsDigit;
    RunsOfLetter(c);
    if s == [] {
      assert s + [c] == [c];
      RunsOfNothing();
    } else {
      var k := RunLength(s);
      FirstOfRuns(s);
      FirstRunOf(s);
      var rest := s[k..] + [c];
      assert s + [c] == Repeat(s[0], k) + rest;
      RunsOfRun(s[0], k, rest);
      RunsBeforeLetter(s[k..], c);
    }
  }

  lemma RunsOfNothing()
    ensures Runs([]) == []
  {
  }

  lemma ItemsOfCounted(s: string, c: char)
    requires |s| >= 1 && forall i :: 0 <= i < |s| ==> IsDigit(s[i])
    requires (IsCode(c) || c == 's')
    ensures Items(s + [c]) == Some(CountedItems(DecVal(s, 0), c))
  {
    ParseCount(s, [c]);
    assert [c][1..] == [];
    var n := DecVal(s, 0);
    assert ParseFormat([c][1..], None) == Some([]);
    if c == 's' {
      assert [Blob(n)] + [] == [Blob(n)];
      assert Items(s + [c]) == Some([Blob(n)]);
    } else {
      assert Repeat(Number(c), n) + [] == Repeat(Number(c), n);
      assert Items(s + [c]) == Some(Repeat(Number(c), n));
    }
  }

  /** The count the compressed format really carries. */
  function ReducedCount(n: nat): nat
  {
    DecVal(Runs(Dec(n)), 0)
  }

  /** The format of a fixed-length array, after compression. */
  lemma ReducedCountedItems(n: nat, c: char)
    requires (IsCode(c) || c == 's')
    ensures Items(Dec(n) + [c]) == Some(CountedItems(n, c))
    ensures Items(Reduce(Dec(n) + [c])) == Some(CountedItems(ReducedCount(n), c))
  {
    hide Items, Runs, Dec, DecVal, CountedItems, Reduce, AdjacentNines;
    ItemsOfCounted(Dec(n), c);
    DecRoundTrip(n);
    ReduceOfCount(n, c);
    RunsShrinkDigits(Dec(n));
    ItemsOfCounted(Runs(Dec(n)), c);
  }

  lemma ReduceOfCount(n: nat, c: char)
    requires IsCode(c) || c == 's'
    ensures Reduce(Dec(n) + [c]) == Runs(Dec(n)) + [c]
  {
    hide Runs, Dec;
    RunsBeforeLetter(Dec(n), c);
    assert '%' !in Dec(n) + [c];
  }

  /** A length survives exactly when its decimal form has no two adjacent nines; otherwise it shrinks. */
  lemma CountKeptIffNoAdjacentNines(n: nat)
    ensures ReducedCount(n) <= n
    ensures ReducedCount(n) == n <==> !AdjacentNines(Dec(n))
  {
    DecRoundTrip(n);
    RunsShrinkDigits(Dec(n));
    if !AdjacentNines(Dec(n)) {
      RunsKeepSafeDigits(Dec(n));
    }
  }

  /** `99d` is compressed to `29d`. */
  lemma NinetyNineIsMangled()
    ensures Reduce("99d") == "29d" && ReducedCount(99) == 29
  {
    var p := "99d";
    assert Dec(99) == "99" by { assert Dec(9) == "9"; }
    assert RunLength("99d") == 2 by {
      RunLengthOfRun('9', 2, "d");
      assert Repeat('9', 2) + "d" == "99d";
    }
    assert p[2..] == "d";
    assert Runs("d") == "d" + Runs("d"[1..]);
    assert Counted(2, '9') == "29" by { assert Dec(2) == "2"; }
    assert RunLength("99") == 2 by {
      RunLengthOfRun('9', 2, []);
      assert Repeat('9', 2) + [] == "99";
    }
    assert Runs("99") == "29" + Runs("99"[2..]) == "29";
    assert DecVal("29", 0) == DecVal("9", 2) == 29 by {
      assert "29"[1..] == "9" && "9"[1..] == "";
    }
  }
}
