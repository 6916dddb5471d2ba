/** Laws of reading and assigning attribute paths in a tree of objects. */
module Attributes {
  import opened Wrappers
  import opened Messages

  lemma {:induction false} GetThrough(v: Value, a: seq<string>, b: seq<string>)
    ensures Get(v, a + b) == match Get(v, a) case Some(x) => Get(x, b) case None => None
  {
    if a == [] {
      assert a + b == b;
    } else if v.Rec? && a[0] in v.m {
      GetThrough(v.m[a[0]], a[1..], b);
      assert (a + b)[1..] == a[1..] + b;
    }
  }

  /** Assigning `a.b` is assigning `b` in the object at `a`. */
  lemma {:induction false} SetThrough(v: Value, a: seq<string>, b: seq<string>, x: Value)
    requires Get(v, a).Some?
    ensures Set(v, a + b, x) == match Set(Get(v, a).value, b, x) case Some(o) => Set(v, a, o) case None => None
  {
    if a == [] {
      assert a + b == b;
    } else {
      SetThrough(v.m[a[0]], a[1..], b, x);
      assert (a + b)[1..] == a[1..] + b;
    }
  }

  lemma {:induction false} GetAfterSet(v: Value, a: seq<string>, x: Value)
    requires Get(v, a).Some?
    ensures Set(v, a, x).Some? && Get(Set(v, a, x).value, a) == Some(x)
  {
    if a != [] {
      GetAfterSet(v.m[a[0]], a[1..], x);
    }
  }

  lemma {:induction false} SetAfterSet(v: Value, a: seq<string>, x: Value, y: Value)
    requires Get(v, a).Some? && Set(v, a, x).Some?
    ensures Set(Set(v, a, x).value, a, y) == Set(v, a, y)
  {
    if a != [] {
      var inner := v.m[a[0]];
      SetAfterSet(inner, a[1..], x, y);
      GetAfterSet(inner, a[1..], y);
      var m := v.m[a[0] := Set(inner, a[1..], x).value];
      assert m[a[0] := Set(inner, a[1..], y).value] == v.m[a[0] := Set(inner, a[1..], y).value];
    }
  }

  lemma {:induction false} SetSame(v: Value, a: seq<string>)
    requires Get(v, a).Some?
    ensures Set(v, a, Get(v, a).value) == Some(v)
  {
    if a != [] {
      SetSame(v.m[a[0]], a[1..]);
      assert v.m[a[0] := v.m[a[0]]] == v.m;
    }
  }

  /** Neither path runs through the other. */
  predicate Apart(a: seq<string>, b: seq<string>)
  {
    !(a <= b) && !(b <= a)
  }

  lemma {:induction false} SetElsewhere(v: Value, a: seq<string>, b: seq<string>, x: Value)
    requires Apart(a, b) && Set(v, a, x).Some?
    ensures Get(Set(v, a, x).value, b) == Get(v, b)
  {
    if a[0] == b[0] {
      SetElsewhere(v.m[a[0]], a[1..], b[1..], x);
    }
  }
}
