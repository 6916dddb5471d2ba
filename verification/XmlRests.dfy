/**
 What can be read from inside printed text: from any position in an encoded value or text, fewer
 characters than it has, unless the read goes past its end.
 */
module XmlRests {
  import opened Wrappers
  import opened Xml
  import opened XmlRoundTrip

  // ---------------------------------------------------------------- suffixes of encoded text

  /** The first `k` characters as they stand, and the rest encoded. */
  function PartEncoded(w: string, k: nat): string
    requires k <= |w|
  {
    w[..k] + Encode(w[k..])
  }

  /**
   What is left of encoded text from some position on: an encoding, perhaps with a start that was
   passed through, or such a rest behind a part of an entity.
   */
  datatype Rest = Whole(w: string, k: nat) | Split(c: char, m: nat, i: nat)

  ghost predicate RestIs(r: Rest, v: string, d: nat)
    requires d <= |Encode(v)|
  {
    match r
    case Whole(w, k) => k <= |w| <= |v| && (d > 0 ==> |w| < |v|) && Encode(v)[d..] == PartEncoded(w, k)
    case Split(c, m, i) =>
      && i < |v| && c == v[i] && 0 < m < |EncodeChar(c)| && 0 < d && Encode(v)[d - 1] == EncodeChar(c)[m - 1]
      && Encode(v)[d..] == EncodeChar(c)[m..] + Encode(v[i + 1..])
  }

  lemma DropBehind(a: string, tail: string, d: nat)
    requires d <= |a|
    ensures (a + tail)[d..] == a[d..] + tail
  {
  }

  lemma ReferencePassed(v: string)
    requires HexReference(v)
    ensures Encode(v) == v[..PassLength(v, 1)] + Encode(v[PassLength(v, 1)..])
  {
  }

  lemma RestOfReference(v: string, d: nat)
    requires HexReference(v) && d <= PassLength(v, 1)
    ensures d <= |Encode(v)| && RestIs(Whole(v[d..], PassLength(v, 1) - d), v, d)
  {
    hide Encode, PassLength, HexReference;
    var p := PassLength(v, 1);
    var a, b := v[..p], Encode(v[p..]);
    ReferencePassed(v);
    DropBehind(a, b, d);
    assert v[d..][..p - d] == a[d..] && v[d..][p - d..] == v[p..];
  }

  lemma DropMore(a: string, b: string, d: nat)
    requires |a| <= d <= |a + b|
    ensures (a + b)[d..] == b[d - |a|..]
  {
  }

  lemma RestBehind(v: string, p: nat, a: string, d: nat, r: Rest) returns (r': Rest)
    requires 0 < p <= |v| && Encode(v) == a + Encode(v[p..]) && 0 < |a| <= d <= |Encode(v)| && RestIs(r, v[p..], d - |a|)
    ensures RestIs(r', v, d)
  {
    hide Encode, EncodeChar, PartEncoded;
    var u := v[p..];
    DropMore(a, Encode(u), d);
    assert Encode(v)[d..] == Encode(u)[d - |a|..];
    match r
    case Whole(w, k) =>
      r' := r;
    case Split(c, m, i) =>
      r' := Split(c, m, i + p);
      assert u[i + 1..] == v[i + p + 1..];
      assert Encode(v)[d - 1] == Encode(u)[d - |a| - 1];
  }

  lemma RestOfAll(v: string)
    ensures RestIs(Whole(v, 0), v, 0)
  {
    assert v[0..] == v && v[..0] == "";
    assert "" + Encode(v) == Encode(v) && Encode(v)[0..] == Encode(v);
  }

  /** Every position in encoded text is at the start of such a rest. */
  lemma {:induction false} RestAt(v: string, d: nat) returns (r: Rest)
    requires d <= |Encode(v)|
    ensures RestIs(r, v, d)
    decreases |v|
  {
    hide Encode, EncodeChar, RestIs, PassLength;
    if d == 0 {
      RestOfAll(v);
      r := Whole(v, 0);
    } else if HexReference(v) {
      var p := PassLength(v, 1);
      if d <= p {
        RestOfReference(v, d);
        r := Whole(v[d..], p - d);
      } else {
        ReferencePassed(v);
        var r0 := RestAt(v[p..], d - p);
        r := RestBehind(v, p, v[..p], d, r0);
      }
    } else {
      EncodedPlain(v, d);
      var e := EncodeChar(v[0]);
      if d < |e| {
        RestInside(v, d);
        r := Split(v[0], d, 0);
      } else {
        var r0 := RestAt(v[1..], d - |e|);
        r := RestBehind(v, 1, e, d, r0);
      }
    }
  }

  lemma EncodedPlain(v: string, d: nat)
    requires !HexReference(v) && 0 < d <= |Encode(v)|
    ensures v != "" && EncodeChar(v[0]) != "" && Encode(v) == EncodeChar(v[0]) + Encode(v[1..])
  {
    EncodedStart(v[0]);
  }

  lemma RestInside(v: string, d: nat)
    requires v != "" && 0 < d < |EncodeChar(v[0])| && Encode(v) == EncodeChar(v[0]) + Encode(v[1..])
    ensures RestIs(Split(v[0], d, 0), v, d)
  {
    hide Encode, EncodeChar;
    DropBehind(EncodeChar(v[0]), Encode(v[1..]), d);
  }

  // ---------------------------------------------------------------- reading such a rest costs characters

  /** A quote or the start of markup behind encoded text. */
  predicate Ends(tail: string)
  {
    tail != "" && (tail[0] == '\"' || tail[0] == '\'' || tail[0] == '<')
  }

  /** What is left is such a rest of fewer characters. */
  ghost predicate Fewer(s: string, n: nat, tail: string)
  {
    exists w, k :: IsPart(s, w, k, tail) && |w| < n
  }

  predicate IsPart(s: string, w: string, k: nat, tail: string)
  {
    k <= |w| && s == PartEncoded(w, k) + tail
  }

  lemma FewerBy(s: string, w: string, k: nat, tail: string, n: nat)
    requires k <= |w| && s == PartEncoded(w, k) + tail && |w| < n
    ensures Fewer(s, n, tail)
  {
    assert IsPart(s, w, k, tail);
  }

  lemma PartDrop(w: string, k: nat, d: nat)
    requires d <= k <= |w|
    ensures d <= |PartEncoded(w, k)| && PartEncoded(w, k)[d..] == PartEncoded(w[d..], k - d)
  {
    assert w[d..][..k - d] == w[d..k] && w[d..][k - d..] == w[k..];
  }

  /** A character that is not an ampersand is one of the text. */
  lemma OneUnit(w: string, k: nat, tail: string)
    requires w != "" && k <= |w|
    ensures var s := PartEncoded(w, k) + tail;
      s != "" && (s[0] != '&' ==> s[0] == w[0] && s[1..] == PartEncoded(w[1..], if k > 0 then k - 1 else 0) + tail)
  {
    var a := PartEncoded(w, k);
    if k > 0 {
      PartDrop(w, k, 1);
      DropBehind(a, tail, 1);
    } else {
      assert a == Encode(w) by {
        assert w[0..] == w && w[..0] == "";
      }
      EncodedFirst(w);
      assert a[0] == (a + tail)[0];
      if a[0] != '&' {
        assert PartEncoded(w[1..], 0) == Encode(w[1..]) by {
          assert w[1..][0..] == w[1..] && w[1..][..0] == "";
        }
        DropBehind(a, tail, 1);
        assert ([w[0]] + Encode(w[1..]))[1..] == Encode(w[1..]);
      }
    }
  }

  lemma EncodedFirst(w: string)
    requires w != ""
    ensures Encode(w) != "" && (Encode(w)[0] != '&' ==> !HexReference(w) && Encode(w) == [w[0]] + Encode(w[1..]))
  {
    if HexReference(w) {
      ReferenceEncoded(w);
    } else {
      EncodedStart(w[0]);
      assert Encode(w) == EncodeChar(w[0]) + Encode(w[1..]);
    }
  }

  /** Behind a semicolon a rest begins. */
  lemma BehindSemicolon(w: string, k: nat, tail: string, j: nat)
    requires k <= |w| && j < |PartEncoded(w, k)| && PartEncoded(w, k)[j] == ';'
    ensures Fewer((PartEncoded(w, k) + tail)[j + 1..], |w|, tail)
  {
    var a := PartEncoded(w, k);
    DropBehind(a, tail, j + 1);
    if j < k {
      PartDrop(w, k, j + 1);
      FewerBy(a[j + 1..] + tail, w[j + 1..], k - j - 1, tail, |w|);
    } else {
      var v, d := w[k..], j + 1 - k;
      assert a[j + 1..] == Encode(v)[d..] && Encode(v)[d - 1] == ';';
      var r := RestAt(v, d);
      if r.Split? {
        EncodedEnd(r.c);
      } else {
        FewerBy(a[j + 1..] + tail, r.w, r.k, tail, |w|);
      }
    }
  }

  /** An ampersand is read as at most one character, in place of at least one, or past the end marker. */
  lemma AmpersandUnits(w: string, k: nat, tail: string)
    requires w != "" && k <= |w| && Ends(tail)
    requires (PartEncoded(w, k) + tail)[0] == '&' && k > 0
    ensures var g := GetChar(PartEncoded(w, k) + tail);
      g.Some? ==> |g.value.0| <= 1 && (Fewer(g.value.1, |w|, tail) || |g.value.1| + 1 < |tail|)
  {
    hide GetChar, PartEncoded, Fewer;
    var a := PartEncoded(w, k);
    var s := a + tail;
    if GetChar(s).Some? {
      EntityEnds(s);
      var (c, rest) := GetChar(s).value;
      var n := |s| - |rest|;
      if c == "" {
        PartDrop(w, k, 1);
        DropBehind(a, tail, 1);
        FewerBy(rest, w[1..], k - 1, tail, |w|);
      } else if n <= |a| {
        assert s[n - 1] == a[n - 1];
        BehindSemicolon(w, k, tail, n - 1);
      } else {
        assert s[n - 1] == tail[n - 1 - |a|];
      }
    }
  }

  lemma SemicolonIs(s: string, k: nat)
    ensures Semicolon(s, k).Some? ==> Semicolon(s, k).value < |s| && s[Semicolon(s, k).value] == ';'
    decreases |s| - k
  {
  }

  lemma ReferenceEnds(s: string, k: nat, base: nat)
    requires k < |s| && Reference(s, k, base).Some?
    ensures var (c, rest) := Reference(s, k, base).value; var n := |s| - |rest|;
      |c| == 1 && 0 < n <= |s| && rest == s[n..] && s[n - 1] == ';'
  {
    hide Digits, Semicolon;
    SemicolonIs(s, k + 1);
  }

  predicate EntityRead(s: string, c: string, rest: string)
  {
    var n := |s| - |rest|;
    |c| <= 1 && n > 0 && rest == s[n..] && (c == "" ==> n == 1) && (c != "" ==> s[n - 1] == ';')
  }

  /** What begins with an ampersand ends with a semicolon, unless the ampersand alone is dropped. */
  lemma EntityEnds(s: string)
    requires s != "" && s[0] == '&' && GetChar(s).Some?
    ensures EntityRead(s, GetChar(s).value.0, GetChar(s).value.1)
  {
    hide Reference;
    if |s| > 2 && s[1] == '#' {
      if s[2] == 'x' {
        ReferenceEnds(s, 2, 16);
      } else {
        ReferenceEnds(s, 1, 10);
      }
    } else {
      NamedRest(s);
    }
  }

  lemma NamedRest(s: string)
    requires s != "" && s[0] == '&' && !(|s| > 2 && s[1] == '#') && GetEntity(s).Some?
    ensures EntityRead(s, GetEntity(s).value.0, GetEntity(s).value.1)
  {
    hide Reference, StartsWith;
    NamedEnds(s);
  }

  lemma NamedEnds(s: string)
    ensures StartsWith(s, "&amp;") ==> |s| >= 5 && s[4] == ';'
    ensures StartsWith(s, "&lt;") ==> |s| >= 4 && s[3] == ';'
    ensures StartsWith(s, "&gt;") ==> |s| >= 4 && s[3] == ';'
    ensures StartsWith(s, "&quot;") ==> |s| >= 6 && s[5] == ';'
    ensures StartsWith(s, "&apos;") ==> |s| >= 6 && s[5] == ';'
  {
    assert |s| >= 5 ==> s[..5][4] == s[4];
    assert |s| >= 4 ==> s[..4][3] == s[3];
    assert |s| >= 6 ==> s[..6][5] == s[5];
  }

  lemma GetCharUnits(w: string, k: nat, tail: string)
    requires w != "" && k <= |w| && Ends(tail)
    ensures PartEncoded(w, k) + tail != ""
    ensures var g := GetChar(PartEncoded(w, k) + tail);
      g.Some? ==> |g.value.0| <= 1 && (Fewer(g.value.1, |w|, tail) || |g.value.1| + 1 < |tail|)
  {
    hide PartEncoded, Encode, GetEntity;
    var s := PartEncoded(w, k) + tail;
    OneUnit(w, k, tail);
    if s[0] != '&' {
      FewerBy(s[1..], w[1..], if k > 0 then k - 1 else 0, tail, |w|);
    } else if k > 0 {
      AmpersandUnits(w, k, tail);
    } else {
      EncodedAmpersand(w, tail);
    }
  }

  lemma NonePassed(w: string)
    ensures PartEncoded(w, 0) == Encode(w)
  {
    assert w[0..] == w && w[..0] == "";
  }

  lemma NothingPassedOn(w: string, p: nat)
    requires p <= |w| && Encode(w) == w[..p] + Encode(w[p..])
    ensures PartEncoded(w, p) == Encode(w)
  {
  }

  lemma EncodedAmpersand(w: string, tail: string)
    requires w != "" && Ends(tail) && (PartEncoded(w, 0) + tail) != "" && (PartEncoded(w, 0) + tail)[0] == '&'
    ensures var g := GetChar(PartEncoded(w, 0) + tail);
      g.Some? ==> |g.value.0| <= 1 && (Fewer(g.value.1, |w|, tail) || |g.value.1| + 1 < |tail|)
  {
    hide GetChar, PartEncoded, EncodeChar;
    NonePassed(w);
    if HexReference(w) {
      var p := PassLength(w, 1);
      ReferencePassed(w);
      NothingPassedOn(w, p);
      AmpersandUnits(w, p, tail);
    } else {
      PlainEncoded(w, tail);
      CharRead(w[0], Encode(w[1..]) + tail);
      NonePassed(w[1..]);
      FewerBy(Encode(w[1..]) + tail, w[1..], 0, tail, |w|);
    }
  }

  /** A value read up to a quote, no farther than behind the one that ends the text. */
  lemma {:induction false} KeptUnits(w: string, k: nat, tail: string, q: char)
    requires k <= |w| && Ends(tail) && q != '&'
    ensures var r := ReadKept(PartEncoded(w, k) + tail, [q]); r.Some? && |r.value.1| + 1 >= |tail| ==> |r.value.0| <= |w|
    decreases |w|
  {
    hide PartEncoded, ReadKept, GetChar, Fewer, Ends;
    var s := PartEncoded(w, k) + tail;
    if w == "" {
      EmptyPart(k, tail);
      KeptAtEnd(tail, q);
    } else {
      GetCharUnits(w, k, tail);
      if s[0] == q {
        KeptStops(s, q);
      } else {
        KeptGoesOn(s, q);
        if ReadKept(s, [q]).Some? {
          var rest := GetChar(s).value.1;
          if Fewer(rest, |w|, tail) {
            var w1, k1 := FewerParts(rest, |w|, tail);
            KeptUnits(w1, k1, tail, q);
          } else {
            KeptShrinks(rest, q);
          }
        }
      }
    }
  }

  lemma FewerParts(s: string, n: nat, tail: string) returns (w: string, k: nat)
    requires Fewer(s, n, tail)
    ensures k <= |w| < n && s == PartEncoded(w, k) + tail
  {
    w, k :| IsPart(s, w, k, tail) && |w| < n;
  }

  lemma EmptyPart(k: nat, tail: string)
    requires k == 0
    ensures PartEncoded("", k) + tail == tail
  {
  }

  lemma KeptStops(s: string, q: char)
    requires s != "" && s[0] == q
    ensures ReadKept(s, [q]) == Some(("", s[1..]))
  {
    assert s[..1] == [q];
  }

  lemma KeptShrinks(s: string, q: char)
    ensures ReadKept(s, [q]).Some? ==> |ReadKept(s, [q]).value.1| < |s|
  {
  }

  lemma KeptAtEnd(tail: string, q: char)
    requires Ends(tail)
    ensures var r := ReadKept(tail, [q]); r.Some? && |r.value.1| + 1 >= |tail| ==> r.value.0 == ""
  {
    if tail[0] == q {
      KeptStops(tail, q);
    } else {
      KeptGoesOn(tail, q);
      KeptShrinks(tail[1..], q);
    }
  }

  /** Text read up to markup, no farther than the markup that ends it. */
  lemma {:induction false} CondensedUnits(w: string, k: nat, tail: string, white: bool)
    requires k <= |w| && Ends(tail) && tail[0] == '<'
    ensures var r := ReadCondensed(PartEncoded(w, k) + tail, white);
      r.Some? && |r.value.1| >= |tail| ==> |r.value.0| <= |w| + if white then 1 else 0
    decreases |w|
  {
    hide PartEncoded, ReadCondensed, GetChar, Fewer;
    var s := PartEncoded(w, k) + tail;
    if w == "" {
      EmptyPart(k, tail);
      CondensedEndsAny(tail, white);
    } else {
      OneUnit(w, k, tail);
      if s[0] == '<' {
        CondensedEndsAny(s, white);
      } else {
        CondensedGoesOn(s, white);
        if IsWhiteSpace(s[0]) {
          CondensedUnits(w[1..], if k > 0 then k - 1 else 0, tail, true);
        } else if ReadCondensed(s, white).Some? {
          GetCharUnits(w, k, tail);
          var rest := GetChar(s).value.1;
          if Fewer(rest, |w|, tail) {
            var w1, k1 := FewerParts(rest, |w|, tail);
            CondensedUnits(w1, k1, tail, false);
          } else {
            CondensedShrinks(rest, false);
          }
        }
      }
    }
  }

  lemma CondensedShrinks(s: string, white: bool)
    ensures ReadCondensed(s, white).Some? ==> |ReadCondensed(s, white).value.1| <= |s|
  {
  }

  // ---------------------------------------------------------------- an attribute inside a value

  lemma {:induction false} NameUnits(w: string, k: nat, tail: string)
    requires k <= |w| && Ends(tail)
    ensures var s := PartEncoded(w, k) + tail; Fewer(s[NameLength(s)..], |w| + 1, tail)
    ensures var s := PartEncoded(w, k) + tail; NameLength(s) > 0 ==> Fewer(s[NameLength(s)..], |w|, tail)
    decreases |w|
  {
    hide PartEncoded, Fewer;
    var s := PartEncoded(w, k) + tail;
    if w == "" {
      EmptyPart(k, tail);
      assert NameLength(s) == 0 && s[0..] == s;
      FewerBy(s, w, k, tail, 1);
    } else {
      OneUnit(w, k, tail);
      if NameChar(s[0]) {
        var w1, k1 := w[1..], if k > 0 then k - 1 else 0;
        NameUnits(w1, k1, tail);
        assert s[NameLength(s)..] == s[1..][NameLength(s[1..])..];
        FewerMore(s[NameLength(s)..], |w|, tail, |w| + 1);
      } else {
        assert s[0..] == s;
        FewerBy(s, w, k, tail, |w| + 1);
      }
    }
  }

  lemma FewerMore(s: string, n: nat, tail: string, n': nat)
    requires Fewer(s, n, tail) && n <= n'
    ensures Fewer(s, n', tail)
  {
    var w, k := FewerParts(s, n, tail);
    FewerBy(s, w, k, tail, n');
  }

  lemma {:induction false} SkipUnits(w: string, k: nat, tail: string)
    requires k <= |w| && Ends(tail)
    ensures Fewer(Skip(PartEncoded(w, k) + tail), |w| + 1, tail)
    decreases |w|
  {
    hide PartEncoded, Fewer;
    var s := PartEncoded(w, k) + tail;
    if w == "" {
      EmptyPart(k, tail);
      FewerBy(s, w, k, tail, 1);
    } else {
      OneUnit(w, k, tail);
      if IsWhiteSpace(s[0]) {
        SkipUnits(w[1..], if k > 0 then k - 1 else 0, tail);
        FewerMore(Skip(s), |w|, tail, |w| + 1);
      } else {
        FewerBy(s, w, k, tail, |w| + 1);
      }
    }
  }

  /** What ends an attribute value without quotes. */
  predicate Delimiter(c: char)
  {
    IsWhiteSpace(c) || c == '/' || c == '>'
  }

  lemma {:induction false} UnquotedUnits(a: string, tail: string)
    requires Ends(tail) && tail[0] != '<' && ReadUnquoted(a + tail).Some?
    ensures (exists c :: c in a && Delimiter(c)) && forall c <- ReadUnquoted(a + tail).value.0 :: !Delimiter(c)
    decreases |a|
  {
    var s := a + tail;
    QuoteIsUnread(tail);
    assert a == "" ==> s == tail;
    if Delimiter(s[0]) {
      assert a[0] in a;
    } else {
      assert s[1..] == a[1..] + tail;
      UnquotedUnits(a[1..], tail);
      var c :| c in a[1..] && Delimiter(c);
      assert c in a;
      var t := ReadUnquoted(s[1..]).value.0;
      assert ReadUnquoted(s).value.0 == [s[0]] + t;
      assert forall d <- [s[0]] + t :: d == s[0] || d in t;
    }
  }

  lemma QuoteIsUnread(tail: string)
    requires Ends(tail) && tail[0] != '<'
    ensures ReadUnquoted(tail).None?
  {
  }

  // ---------------------------------------------------------------- suffixes

  predicate Suffix(s: string, r: string)
  {
    |r| <= |s| && s[|s| - |r|..] == r
  }

  lemma SuffixTwice(s: string, r: string, t: string)
    requires Suffix(s, r) && Suffix(r, t)
    ensures Suffix(s, t)
  {
    assert s[|s| - |t|..] == s[|s| - |r|..][|r| - |t|..];
  }

  /** Of two suffixes the shorter one is a suffix of the longer one. */
  lemma SuffixesNest(s: string, r: string, t: string)
    requires Suffix(s, r) && Suffix(s, t) && |t| <= |r|
    ensures Suffix(r, t)
  {
    assert s[|s| - |t|..] == s[|s| - |r|..][|r| - |t|..];
  }

  lemma DropIsSuffix(s: string, n: nat)
    requires n <= |s|
    ensures Suffix(s, s[n..])
  {
  }

  lemma ConcatSuffix(a: string, b: string)
    ensures Suffix(a + b, b)
  {
  }

  lemma {:induction false} SkipSuffix(s: string)
    ensures Suffix(s, Skip(s))
    decreases |s|
  {
    if s != "" && IsWhiteSpace(s[0]) {
      SkipSuffix(s[1..]);
      DropIsSuffix(s, 1);
      SuffixTwice(s, s[1..], Skip(s));
    }
  }

  lemma GetCharSuffix(s: string)
    requires s != "" && GetChar(s).Some?
    ensures Suffix(s, GetChar(s).value.1) && |GetChar(s).value.1| < |s|
  {
    hide GetEntity;
    if s[0] == '&' {
      EntityEnds(s);
    }
  }

  /** A quoted value is read with its closing quote. */
  lemma {:induction false} KeptSuffix(s: string, q: char)
    requires ReadKept(s, [q]).Some?
    ensures var after := ReadKept(s, [q]).value.1; Suffix(s, after) && |after| < |s| && s[|s| - |after| - 1] == q
    decreases |s|
  {
    hide GetChar;
    if s[0] == q {
      KeptStops(s, q);
    } else {
      KeptGoesOn(s, q);
      GetCharSuffix(s);
      var rest := GetChar(s).value.1;
      KeptSuffix(rest, q);
      SuffixTwice(s, rest, ReadKept(rest, [q]).value.1);
    }
  }

  lemma {:induction false} UnquotedSuffix(s: string)
    requires ReadUnquoted(s).Some?
    ensures Suffix(s, ReadUnquoted(s).value.1)
    decreases |s|
  {
    if s != "" && !Delimiter(s[0]) {
      UnquotedSuffix(s[1..]);
      DropIsSuffix(s, 1);
      SuffixTwice(s, s[1..], ReadUnquoted(s).value.1);
    }
  }

  lemma {:induction false} CondensedSuffix(s: string, white: bool)
    requires ReadCondensed(s, white).Some?
    ensures Suffix(s, ReadCondensed(s, white).value.1)
    decreases |s|
  {
    hide GetChar;
    if s != "" && s[0] != '<' {
      CondensedGoesOn(s, white);
      if IsWhiteSpace(s[0]) {
        CondensedSuffix(s[1..], true);
        DropIsSuffix(s, 1);
        SuffixTwice(s, s[1..], ReadCondensed(s[1..], true).value.1);
      } else {
        GetCharSuffix(s);
        var rest := GetChar(s).value.1;
        CondensedSuffix(rest, false);
        SuffixTwice(s, rest, ReadCondensed(rest, false).value.1);
      }
    }
  }

  /** The parts of a parsed attribute: behind the name, and at the value. */
  lemma AttributeParts(s: string) returns (named: string, value: string)
    requires ParseAttribute(s).Some?
    ensures var (a, rest) := ParseAttribute(s).value; var eq := Skip(named);
      && ReadName(Skip(s)) == Some((a.name, named)) && eq != "" && eq[0] == '=' && value == Skip(eq[1..])
      && value != "" && ReadAttributeValue(value) == Some((a.value, rest))
    ensures Suffix(s, value) && Suffix(s, ParseAttribute(s).value.1) && |named| < |Skip(s)|
  {
    hide Skip, ReadAttributeValue, Suffix;
    named := ReadName(Skip(s)).value.1;
    var eq := Skip(named);
    value := Skip(eq[1..]);
    SkipSuffix(s);
    NameSuffix(Skip(s));
    SkipSuffix(named);
    DropIsSuffix(eq, 1);
    SkipSuffix(eq[1..]);
    SuffixTwice(s, Skip(s), named);
    SuffixTwice(s, named, eq);
    SuffixTwice(s, eq, eq[1..]);
    SuffixTwice(s, eq[1..], value);
    ValueSuffix(value);
    SuffixTwice(s, value, ParseAttribute(s).value.1);
  }

  lemma NameSuffix(s: string)
    requires ReadName(s).Some?
    ensures Suffix(s, ReadName(s).value.1)
  {
  }

  lemma ValueSuffix(value: string)
    requires value != "" && ReadAttributeValue(value).Some?
    ensures Suffix(value, ReadAttributeValue(value).value.1)
  {
    hide ReadKept, ReadUnquoted;
    DropIsSuffix(value, 1);
    if value[0] == '\'' || value[0] == '\"' {
      KeptSuffix(value[1..], value[0]);
      SuffixTwice(value, value[1..], ReadKept(value[1..], [value[0]]).value.1);
    } else {
      UnquotedSuffix(value);
    }
  }

  // ---------------------------------------------------------------- no attribute from inside its own text

  /** Farther than what follows a text, and not only by a space. */
  predicate Past(rest: string, after: string)
  {
    |rest| < |after| && (after[0] == ' ' ==> |rest| + 1 < |after|)
  }

  /** A delimiter in the text, none in the value. */
  ghost predicate Delimited(text: string, v: string)
  {
    (exists c :: c in text && Delimiter(c)) && forall c <- v :: !Delimiter(c)
  }

  /** An attribute read from inside encoded text has a shorter value, or a delimiter too many in the text, or is read past it. */
  lemma AttributeInside(w: string, k: nat, q0: char, after: string)
    requires k <= |w| && (q0 == '\"' || q0 == '\'')
    ensures var r := ParseAttribute(PartEncoded(w, k) + ([q0] + after));
      r.Some? ==> |r.value.0.value| < |w| || Past(r.value.1, after) || Delimited(PartEncoded(w, k), r.value.0.value)
  {
    hide PartEncoded, ParseAttribute, ReadAttributeValue, ReadName, Skip, Fewer, Suffix, Delimited;
    var tail := [q0] + after;
    var s := PartEncoded(w, k) + tail;
    if ParseAttribute(s).Some? {
      var named, value := AttributeParts(s);
      SkipUnits(w, k, tail);
      var w1, k1 := FewerParts(Skip(s), |w| + 1, tail);
      NamedUnits(w1, k1, tail);
      var w2, k2 := FewerParts(named, |w1|, tail);
      SkipUnits(w2, k2, tail);
      var w3, k3 := FewerParts(Skip(named), |w2| + 1, tail);
      EqualsUnits(w3, k3, tail);
      var w4, k4 := FewerParts(value, |w3|, tail);
      ValueInside(w4, k4, q0, after);
      if Delimited(PartEncoded(w4, k4), ParseAttribute(s).value.0.value) {
        DelimitedMore(PartEncoded(w, k), PartEncoded(w4, k4), tail, ParseAttribute(s).value.0.value);
      }
    }
  }

  lemma NamedUnits(w: string, k: nat, tail: string)
    requires k <= |w| && Ends(tail) && ReadName(PartEncoded(w, k) + tail).Some?
    ensures Fewer(ReadName(PartEncoded(w, k) + tail).value.1, |w|, tail)
  {
    hide PartEncoded, Fewer, Ends;
    NameUnits(w, k, tail);
  }

  /** Behind `=` and white space. */
  lemma EqualsUnits(w: string, k: nat, tail: string)
    requires k <= |w| && Ends(tail) && (PartEncoded(w, k) + tail) != "" && (PartEncoded(w, k) + tail)[0] == '='
    ensures Fewer(Skip((PartEncoded(w, k) + tail)[1..]), |w|, tail)
  {
    hide PartEncoded, Fewer, Skip;
    if w == "" {
      EmptyPart(k, tail);
    } else {
      OneUnit(w, k, tail);
      SkipUnits(w[1..], if k > 0 then k - 1 else 0, tail);
    }
  }

  lemma DelimitedMore(a: string, b: string, tail: string, v: string)
    requires Suffix(a + tail, b + tail) && Delimited(b, v)
    ensures Delimited(a, v)
  {
    var c :| c in b && Delimiter(c);
    var i :| 0 <= i < |b| && b[i] == c;
    var d := |a| - |b|;
    assert (a + tail)[d..][i] == (b + tail)[i];
    assert a[d + i] == c;
  }

  lemma ValueInside(w: string, k: nat, q0: char, after: string)
    requires k <= |w| && (q0 == '\"' || q0 == '\'') && (PartEncoded(w, k) + ([q0] + after)) != ""
    ensures var r := ReadAttributeValue(PartEncoded(w, k) + ([q0] + after));
      r.Some? ==> |r.value.0| <= |w| || Past(r.value.1, after) || Delimited(PartEncoded(w, k), r.value.0)
  {
    hide PartEncoded, ReadKept, ReadUnquoted, Past;
    var tail := [q0] + after;
    var value := PartEncoded(w, k) + tail;
    if ReadAttributeValue(value).Some? {
      if w == "" {
        EmptyPart(k, tail);
        assert tail[1..] == after;
        QuotedPast(after, q0, after);
      } else if value[0] == '\'' || value[0] == '\"' {
        OneUnit(w, k, tail);
        var k1 := if k > 0 then k - 1 else 0;
        KeptUnits(w[1..], k1, tail, value[0]);
        var (t, rest) := ReadKept(value[1..], [value[0]]).value;
        if |rest| < |after| {
          assert Suffix(value[1..], after);
          QuotedPast(value[1..], value[0], after);
        }
      } else {
        UnquotedUnits(PartEncoded(w, k), tail);
      }
    }
  }

  /** A quoted value read to beyond some place is not read only one space farther. */
  lemma QuotedPast(s: string, q: char, after: string)
    requires (q == '\"' || q == '\'') && ReadKept(s, [q]).Some? && |ReadKept(s, [q]).value.1| < |after| && Suffix(s, after)
    ensures Past(ReadKept(s, [q]).value.1, after)
  {
    KeptSuffix(s, q);
    var rest := ReadKept(s, [q]).value.1;
    assert |rest| + 1 == |after| ==> s[|s| - |after|] == after[0];
  }

  /** Delimiters are never escaped and no entity has one. */
  lemma {:induction false} DelimiterKept(v: string, c: char)
    requires Delimiter(c) && c in Encode(v)
    ensures c in v
    decreases |v|
  {
    if HexReference(v) {
      var p := PassLength(v, 1);
      if c !in v[..p] {
        DelimiterKept(v[p..], c);
      }
    } else {
      if c in EncodeChar(v[0]) {
        DelimiterAlone(v[0], c);
      } else {
        DelimiterKept(v[1..], c);
      }
    }
  }

  lemma DelimiterAlone(x: char, c: char)
    requires Delimiter(c) && c in EncodeChar(x)
    ensures x == c
  {
  }

  /** From inside an entity no attribute can be read. */
  lemma EntityIsNoAttribute(c: char, m: nat, x: string)
    requires 0 < m < |EncodeChar(c)|
    ensures ParseAttribute(EncodeChar(c)[m..] + x).None?
  {
    var e := EncodeChar(c);
    var s := e[m..] + x;
    EntityText(c);
    assert s[0] == e[m];
    SkipNothing(s);
    if NameStart(s[0]) {
      var name := e[m..|e| - 1];
      assert s == name + (";" + x);
      forall d | d in name ensures NameChar(d) {
        var i :| 0 <= i < |name| && name[i] == d;
        assert name[i] == e[m + i];
      }
      NameRun(name, ";" + x);
      assert s[|name|..] == ";" + x;
      SkipNothing(";" + x);
    }
  }

  lemma EntityText(c: char)
    requires |EncodeChar(c)| > 1
    ensures var e := EncodeChar(c); e[|e| - 1] == ';' && forall i :: 0 < i < |e| ==> !IsWhiteSpace(e[i]) && e[i] != '<' && e[i] != '&'
    ensures var e := EncodeChar(c); forall m, i :: 0 < m <= i < |e| - 1 && NameStart(e[m]) ==> NameChar(e[i])
  {
  }

  /**
   Reading a printed attribute from behind its first character: either the attribute is another
   one, or the read goes past it.
   */
  lemma AttributeAhead(a: Attribute, after: string, s: string)
    requires LegalName(a.name) && Suffix(PrintAttribute(a) + after, s) && |after| < |s| < |PrintAttribute(a) + after|
    requires ParseAttribute(s).Some? && ParseAttribute(s).value.0 == a
    ensures Past(ParseAttribute(s).value.1, after)
  {
    hide Encode, PrintAttribute, ParseAttribute, Quoted, NameChar, NameStart, Suffix;
    var q := QuoteOf(a);
    NameEncoded(a.name);
    QuotedText(q, a.name, Encode(a.value), after);
    var quoted := Encode(a.value) + ([q] + after);
    var whole := a.name + ("=" + ([q] + quoted));
    var d := |whole| - |s|;
    assert Suffix(whole, s);
    SuffixDrop(whole, s);
    if d <= |a.name| + 1 {
      InsideName(a.name, [q] + quoted, d);
    } else {
      BehindName(a.name, q, quoted, d);
      InsideValue(a, q, after, d - |a.name| - 2);
    }
  }

  lemma SuffixDrop(s: string, r: string)
    requires Suffix(s, r)
    ensures r == s[|s| - |r|..]
  {
  }

  lemma BehindName(name: string, q: char, quoted: string, d: nat)
    requires |name| + 2 <= d <= |name| + 2 + |quoted|
    ensures (name + ("=" + ([q] + quoted)))[d..] == quoted[d - |name| - 2..]
  {
  }

  /** From inside the name, only another name can be read; from the equals sign or the quote, none. */
  lemma InsideName(name: string, value: string, d: nat)
    requires LegalName(name) && 0 < d <= |name| + 1 && value != "" && (value[0] == '\"' || value[0] == '\'')
    ensures var r := ParseAttribute((name + ("=" + value))[d..]); r.Some? ==> r.value.0.name != name
  {
    hide ParseAttribute, LegalName;
    var s := (name + ("=" + value))[d..];
    if d < |name| {
      assert s == name[d..] + ("=" + value);
      ShorterName(name, value, d);
    } else if d == |name| {
      assert s == "=" + value;
      NoNameHere(s);
    } else {
      assert s == value;
      NoNameHere(s);
    }
  }

  lemma NoNameHere(s: string)
    requires s != "" && (s[0] == '=' || s[0] == '\"' || s[0] == '\'')
    ensures ParseAttribute(s).None?
  {
    SkipNothing(s);
  }

  lemma ShorterName(name: string, value: string, d: nat)
    requires LegalName(name) && 0 < d < |name|
    ensures var r := ParseAttribute(name[d..] + ("=" + value)); r.Some? ==> r.value.0.name != name
  {
    hide ReadAttributeValue, Skip, Suffix;
    var n := name[d..];
    var s := n + ("=" + value);
    assert s[0] == name[d] && name[d] in name;
    NameIsNoSpace(s[0]);
    SkipNothing(s);
    assert forall c <- n :: c in name;
    NameRun(n, "=" + value);
    assert s[..|n|] == n;
  }

  lemma NameIsNoSpace(c: char)
    requires NameChar(c)
    ensures !IsWhiteSpace(c)
  {
  }

  lemma InsideValue(a: Attribute, q: char, after: string, e: nat)
    requires (q == '\"' || q == '\'') && e < |Encode(a.value)| + 1
    requires var r := ParseAttribute((Encode(a.value) + ([q] + after))[e..]); r.Some? && r.value.0 == a
    ensures Past(ParseAttribute((Encode(a.value) + ([q] + after))[e..]).value.1, after)
  {
    hide Encode, EncodeChar, ParseAttribute, PartEncoded, Past;
    var v, tail := a.value, [q] + after;
    DropBehind(Encode(v), tail, e);
    var r := RestAt(v, e);
    match r
    case Whole(w, k) =>
      AttributeInside(w, k, q, after);
      if Delimited(PartEncoded(w, k), v) {
        var c :| c in PartEncoded(w, k) && Delimiter(c);
        assert c in Encode(v)[e..];
        DelimiterKept(v, c);
      }
    case Split(c, m, i) =>
      assert EncodeChar(c)[m..] + Encode(v[i + 1..]) + tail == EncodeChar(c)[m..] + (Encode(v[i + 1..]) + tail);
      EntityIsNoAttribute(c, m, Encode(v[i + 1..]) + tail);
  }

  // ---------------------------------------------------------------- no text from inside itself

  /** Characters that are read as they stand. */
  lemma {:induction false} PlainRun(p: string, x: string)
    requires forall c <- p :: !IsWhiteSpace(c) && c != '<' && c != '&'
    ensures var r := ReadCondensed(x, false);
      ReadCondensed(p + x, false) == if r.None? then None else Some((p + r.value.0, r.value.1))
    decreases |p|
  {
    if p == "" {
      assert p + x == x;
      if ReadCondensed(x, false).Some? {
        assert "" + ReadCondensed(x, false).value.0 == ReadCondensed(x, false).value.0;
      }
    } else {
      var s := p + x;
      assert p[0] in p && forall c <- p[1..] :: c in p;
      assert s[1..] == p[1..] + x;
      PlainRun(p[1..], x);
      PlainStep(s);
      if ReadCondensed(x, false).Some? {
        var t := ReadCondensed(x, false).value.0;
        assert [p[0]] + (p[1..] + t) == p + t;
      }
    }
  }

  lemma PlainStep(s: string)
    requires s != "" && !IsWhiteSpace(s[0]) && s[0] != '<' && s[0] != '&'
    ensures var r := ReadCondensed(s[1..], false);
      ReadCondensed(s, false) == if r.None? then None else Some(([s[0]] + r.value.0, r.value.1))
  {
    hide GetEntity, IsWhiteSpace;
    if ReadCondensed(s[1..], false).Some? {
      assert "" + [s[0]] + ReadCondensed(s[1..], false).value.0 == [s[0]] + ReadCondensed(s[1..], false).value.0;
    }
  }

  lemma EscapedNowhere(c: char, j: nat)
    requires 0 < j < |EncodeChar(c)|
    ensures EncodeChar(c)[j] != c
  {
  }

  /** Reading printed text from behind its first character: either the text is another one, or the read goes past it. */
  lemma TextAhead(v: string, after: string, s: string)
    requires after != "" && after[0] == '<' && Suffix(Encode(v) + after, s) && |after| < |s| < |Encode(v) + after|
    requires ReadCondensed(s, false).Some? && ReadCondensed(s, false).value.0 == v
    ensures |ReadCondensed(s, false).value.1| < |after|
  {
    hide Encode, EncodeChar, ReadCondensed, PartEncoded, Suffix;
    var whole := Encode(v) + after;
    var d := |whole| - |s|;
    SuffixDrop(whole, s);
    DropBehind(Encode(v), after, d);
    var r := RestAt(v, d);
    match r
    case Whole(w, k) =>
      CondensedUnits(w, k, after, false);
    case Split(c, m, i) =>
      var p, x := EncodeChar(c)[m..], Encode(v[i + 1..]) + after;
      assert s == p + x;
      SplitText(v, c, m, i, after);
  }

  lemma SplitText(v: string, c: char, m: nat, i: nat, after: string)
    requires after != "" && after[0] == '<' && i < |v| && c == v[i] && 0 < m < |EncodeChar(c)|
    requires var r := ReadCondensed(EncodeChar(c)[m..] + (Encode(v[i + 1..]) + after), false); r.Some? && r.value.0 == v
    ensures |ReadCondensed(EncodeChar(c)[m..] + (Encode(v[i + 1..]) + after), false).value.1| < |after|
  {
    hide Encode, EncodeChar, ReadCondensed, PartEncoded;
    var e := EncodeChar(c);
    var p, u := e[m..], v[i + 1..];
    EntityText(c);
    forall d | d in p ensures !IsWhiteSpace(d) && d != '<' && d != '&' {
      var j :| 0 <= j < |p| && p[j] == d;
      assert p[j] == e[m + j];
    }
    PlainRun(p, Encode(u) + after);
    NonePassed(u);
    CondensedUnits(u, 0, after, false);
    var (t, rest) := ReadCondensed(Encode(u) + after, false).value;
    assert v == p + t;
    if i < |p| {
      assert v[i] == p[i] == e[m + i];
      EscapedNowhere(c, m + i);
    }
  }

  // ---------------------------------------------------------------- from the right place

  lemma AttributeAligned(a: Attribute, after: string)
    requires LegalName(a.name) && ParseAttribute(PrintAttribute(a) + after).Some? && ParseAttribute(PrintAttribute(a) + after).value.0 == a
    ensures var rest := ParseAttribute(PrintAttribute(a) + after).value.1; (rest == after && NoReference(a.value)) || Past(rest, after)
  {
    hide Encode, PrintAttribute, ReadKept, ReadName, ParseAttribute, NoReference, Quoted, NameChar, NameStart, Past, Suffix;
    if NoReference(a.value) {
      AttributeRead(a, after);
    } else {
      var q := QuoteOf(a);
      NameEncoded(a.name);
      QuotedText(q, a.name, Encode(a.value), after);
      var quoted := Encode(a.value) + ([q] + after);
      var s := a.name + ("=" + ([q] + quoted));
      assert s[0] == a.name[0];
      EqualsEndsName(quoted, q);
      NameRead(a.name, "=" + ([q] + quoted));
      AttributeValueRead(s, a.name, q, quoted);
      ReferencesShorten(a.value, q, after);
      assert quoted == Encode(a.value) + [q] + after;
      ConcatSuffix(Encode(a.value) + [q], after);
      QuotedPast(quoted, q, after);
    }
  }

  lemma TextAligned(v: string, after: string)
    requires after != "" && after[0] == '<'
    requires var p := Skip(Encode(v) + after); p != "" && p[0] != '<' && ReadCondensed(p, false).Some? && ReadCondensed(p, false).value.0 == v
    ensures var rest := ReadCondensed(Skip(Encode(v) + after), false).value.1;
      (rest == after && NoReference(v) && Tidy(v)) || |rest| < |after|
  {
    hide Encode, ReadCondensed, Skip, NoReference, Condense;
    var u := v[LeadingSpaces(v)..];
    LeadingSkipped(v, after);
    if NoReference(v) {
      TextIsCondensed(u, false, after);
      CondensedIsSingle(u, false);
      if u == "" {
        NothingEncoded(after);
      }
    } else {
      ReferencesShortenText(u, false, after);
    }
  }
}
