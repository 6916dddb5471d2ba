/** Flattening embedded messages changes neither the wire format nor the meaning of a field list. */
module Flattening {
  import opened Wrappers
  import opened Sequences
  import opened Messages
  import opened Attributes
  import opened Genpy
  import opened Serialization
  import opened Deserialization

  /** The accumulating loops of `flatten`. */
  method FlattenSpec(fs: seq<Field>) returns (r: seq<Field>)
    ensures r == Flatten(fs)
    decreases fs, 1
  {
    r := [];
    for i := 0 to |fs|
      invariant r + Flatten(fs[i..]) == Flatten(fs)
    {
      ghost var rest := Flatten(fs[i + 1..]);
      assert fs[i..][1..] == fs[i + 1..] && fs[i..][0] == fs[i];
      var part := FlattenField(fs[i]);
      Associative(r, part, rest);
      r := r + part;
    }
  }

  method FlattenField(f: Field) returns (r: seq<Field>)
    ensures r == FlattenOne(f)
    decreases f, 0
  {
    if !IsEmbedded(f) {
      return [f];
    }
    var sub := FlattenSpec(f.base.spec.fields);
    r := [];
    for j := 0 to |sub|
      invariant r == Prefixed(f.name, sub)[..j]
    {
      r := r + [sub[j].(name := f.name + sub[j].name)];
    }
  }

  // ---------------------------------------------------------------- the wire format

  lemma {:induction false} PrefixedEncodes(p: seq<string>, fs: seq<Field>, o: Value)
    ensures Get(o, p).Some? ==> EncodeFields(Prefixed(p, fs), o) == EncodeFields(fs, Get(o, p).value)
    ensures Get(o, p).None? ==> EncodeFields(Prefixed(p, fs), o) == []
  {
    if fs != [] {
      PrefixedEncodes(p, fs[1..], o);
      GetThrough(o, p, fs[0].name);
      assert Prefixed(p, fs)[1..] == Prefixed(p, fs[1..]);
    }
  }

  lemma {:induction false} FlattenOneEncodes(f: Field, o: Value)
    ensures EncodeFields(FlattenOne(f), o) == EncodeAt(f, o)
    decreases f
  {
    if IsEmbedded(f) {
      PrefixedEncodes(f.name, Flatten(f.base.spec.fields), o);
      if Get(o, f.name).Some? {
        var x := Get(o, f.name).value;
        FlattenEncodes(f.base.spec.fields, x);
        assert EncodeField(f.base, f.kind, x) == EncodeBase(f.base, x) == EncodeFields(f.base.spec.fields, x);
      }
    } else {
      assert [f][1..] == [] && [f][0] == f;
      assert EncodeAt(f, o) + [] == EncodeAt(f, o);
    }
  }

  lemma {:induction false} FlattenEncodes(fs: seq<Field>, o: Value)
    ensures EncodeFields(Flatten(fs), o) == EncodeFields(fs, o)
    decreases fs
  {
    if fs != [] {
      FlattenEncodes(fs[1..], o);
      FlattenOneEncodes(fs[0], o);
      EncodeAppend(FlattenOne(fs[0]), Flatten(fs[1..]), o);
    }
  }

  lemma {:induction false} PrefixedDamage(mode: Mode, p: seq<string>, fs: seq<Field>, o: Value)
    ensures DamagedFields(mode, Prefixed(p, fs), o) == (Get(o, p).Some? && DamagedFields(mode, fs, Get(o, p).value))
  {
    if fs != [] {
      PrefixedDamage(mode, p, fs[1..], o);
      GetThrough(o, p, fs[0].name);
      assert Prefixed(p, fs)[1..] == Prefixed(p, fs[1..]);
    }
  }

  /** Flattening neither adds nor hides damage. */
  lemma {:induction false} FlattenDamage(mode: Mode, fs: seq<Field>, o: Value)
    ensures DamagedFields(mode, Flatten(fs), o) == DamagedFields(mode, fs, o)
    decreases fs, 1
  {
    if fs != [] {
      FlattenDamage(mode, fs[1..], o);
      FlattenOneDamage(mode, fs[0], o);
      DamageAppend(mode, FlattenOne(fs[0]), Flatten(fs[1..]), o);
    }
  }

  lemma {:induction false} FlattenOneDamage(mode: Mode, f: Field, o: Value)
    ensures DamagedFields(mode, FlattenOne(f), o) == DamagedAt(mode, f, o)
    decreases f, 0
  {
    if IsEmbedded(f) {
      PrefixedDamage(mode, f.name, Flatten(f.base.spec.fields), o);
      if Get(o, f.name).Some? {
        var x := Get(o, f.name).value;
        FlattenDamage(mode, f.base.spec.fields, x);
        assert DamagedField(mode, f.base, f.kind, x) == DamagedBase(mode, f.base, x) == DamagedFields(mode, f.base.spec.fields, x);
      }
    } else {
      assert [f][1..] == [] && [f][0] == f;
    }
  }

  lemma {:induction false} FlattenTyped(fs: seq<Field>, o: Value, strict: bool)
    requires TypedFields(fs, o, strict)
    ensures TypedFields(Flatten(fs), o, strict)
    decreases fs
  {
    if fs != [] {
      assert forall i :: 0 <= i < |fs[1..]| ==> fs[1..][i] == fs[i + 1];
      FlattenTyped(fs[1..], o, strict);
      if IsEmbedded(fs[0]) {
        var x := Get(o, fs[0].name).value;
        var sub := Flatten(fs[0].base.spec.fields);
        assert TypedField(fs[0].base, fs[0].kind, x, strict);
        assert TypedBase(fs[0].base, x, strict);
        FlattenTyped(fs[0].base.spec.fields, x, strict);
        PrefixedTyped(fs[0].name, sub, o, strict);
      }
    }
  }

  lemma PrefixedTyped(p: seq<string>, fs: seq<Field>, o: Value, strict: bool)
    requires Get(o, p).Some? && TypedFields(fs, Get(o, p).value, strict)
    ensures TypedFields(Prefixed(p, fs), o, strict)
  {
    forall i | 0 <= i < |fs| ensures Get(o, p + fs[i].name) == Get(Get(o, p).value, fs[i].name) {
      GetThrough(o, p, fs[i].name);
    }
  }

  // ---------------------------------------------------------------- names

  /** Every flattened name begins with the name of a field. */
  lemma {:induction false} FlattenHeads(fs: seq<Field>)
    requires ValidFields(fs)
    ensures forall i :: 0 <= i < |Flatten(fs)| ==>
      var n := Flatten(fs)[i].name;
      n != [] && !IsEmbedded(Flatten(fs)[i]) && exists k :: 0 <= k < |fs| && fs[k].name == [n[0]]
    decreases fs
  {
    if fs != [] {
      ValidTail(fs);
      FlattenHeads(fs[1..]);
      if IsEmbedded(fs[0]) {
        FlattenHeads(fs[0].base.spec.fields);
      }
      forall i | 0 <= i < |Flatten(fs)|
        ensures var n := Flatten(fs)[i].name;
          n != [] && !IsEmbedded(Flatten(fs)[i]) && exists k :: 0 <= k < |fs| && fs[k].name == [n[0]]
      {
        var first := |Flatten(fs)| - |Flatten(fs[1..])|;
        if i < first {
          assert Flatten(fs)[i] == FlattenOne(fs[0])[i];
          if IsEmbedded(fs[0]) {
            var sub := Flatten(fs[0].base.spec.fields)[i];
            assert Flatten(fs)[i] == sub.(name := fs[0].name + sub.name) && !IsEmbedded(sub);
          }
          assert fs[0].name == [Flatten(fs)[i].name[0]];
        } else {
          var f := Flatten(fs[1..])[i - first];
          assert Flatten(fs)[i] == f;
          var k :| 0 <= k < |fs[1..]| && fs[1..][k].name == [f.name[0]];
          assert fs[k + 1].name == [f.name[0]];
        }
      }
    }
  }

  lemma ValidTail(fs: seq<Field>)
    requires fs != [] && ValidFields(fs)
    ensures ValidFields(fs[1..])
    ensures fs[0].base.Embedded? ==> ValidFields(fs[0].base.spec.fields)
    ensures forall k :: 0 <= k < |fs[1..]| ==> fs[1..][k].name != fs[0].name
  {
    assert forall i :: 0 <= i < |fs[1..]| ==> fs[1..][i] == fs[i + 1];
  }

  /** Flattened names stay unique, and none runs through another. */
  lemma {:induction false} FlattenApart(fs: seq<Field>)
    requires ValidFields(fs)
    ensures AllApart(Flatten(fs))
    ensures forall i, j :: 0 <= i < j < |Flatten(fs)| ==> Flatten(fs)[i].name != Flatten(fs)[j].name
    decreases fs
  {
    if fs != [] {
      ValidTail(fs);
      FlattenApart(fs[1..]);
      FlattenHeads(fs[1..]);
      var rest := Flatten(fs[1..]);
      var head := [fs[0]];
      if IsEmbedded(fs[0]) {
        head := Prefixed(fs[0].name, Flatten(fs[0].base.spec.fields));
        FlattenApart(fs[0].base.spec.fields);
        PrefixedApart(fs[0].name, Flatten(fs[0].base.spec.fields));
      }
      forall i, j | 0 <= i < |head| && 0 <= j < |rest| ensures Apart(head[i].name, rest[j].name) {
        assert head[i].name[0] == fs[0].name[0];
        var k :| 0 <= k < |fs[1..]| && fs[1..][k].name == [rest[j].name[0]];
        assert fs[1..][k].name != fs[0].name;
      }
      assert Flatten(fs) == head + rest;
    }
  }

  lemma PrefixedApart(p: seq<string>, fs: seq<Field>)
    requires AllApart(fs)
    ensures AllApart(Prefixed(p, fs))
  {
    forall i, j | 0 <= i < j < |fs| ensures Apart(p + fs[i].name, p + fs[j].name) {
      assert Apart(fs[i].name, fs[j].name);
      PrefixCancels(p, fs[i].name, fs[j].name);
      PrefixCancels(p, fs[j].name, fs[i].name);
    }
  }

  lemma PrefixCancels(p: seq<string>, a: seq<string>, b: seq<string>)
    ensures p + a <= p + b ==> a <= b
  {
    if p + a <= p + b {
      assert forall i :: 0 <= i < |a| ==> a[i] == (p + a)[|p| + i] == (p + b)[|p| + i] == b[i];
    }
  }

  // ---------------------------------------------------------------- assigning flattened fields

  lemma {:induction false} FlattenSettable(fs: seq<Field>, o: Value)
    requires ValidFields(fs) && Shaped(fs, o)
    ensures Settable(Flatten(fs), o) && AllApart(Flatten(fs))
  {
    FlattenApart(fs);
    FlattenHeads(fs);
    ShapedIsSettable(fs, o);
    FlattenPresent(fs, o);
  }

  lemma {:induction false} FlattenPresent(fs: seq<Field>, o: Value)
    requires EmbeddedValid(fs) && Settable(fs, o)
    ensures forall i :: 0 <= i < |Flatten(fs)| ==> Get(o, Flatten(fs)[i].name).Some?
    decreases fs
  {
    if fs != [] {
      assert forall i :: 0 <= i < |fs[1..]| ==> fs[1..][i] == fs[i + 1];
      FlattenPresent(fs[1..], o);
      if IsEmbedded(fs[0]) {
        var sub := fs[0].base.spec.fields;
        var x := Get(o, fs[0].name).value;
        ShapedIsSettable(sub, x);
        FlattenPresent(sub, x);
        forall i | 0 <= i < |Flatten(sub)| ensures Get(o, fs[0].name + Flatten(sub)[i].name).Some? {
          GetThrough(o, fs[0].name, Flatten(sub)[i].name);
        }
      }
    }
  }

  /** The parts of a message that flattened assignments pass through are objects with the right slots. */
  predicate Complete(fs: seq<Field>, v: Value)
  {
    forall i :: 0 <= i < |fs| && IsEmbedded(fs[i]) ==>
      && Get(v, fs[i].name).Some?
      && var x := Get(v, fs[i].name).value;
         x.Rec? && x.m.Keys == Names(fs[i].base.spec.fields) && TypedFields(fs[i].base.spec.fields, x, true)
  }

  lemma TypedIsComplete(fs: seq<Field>, v: Value)
    requires TypedFields(fs, v, true)
    ensures Complete(fs, v)
  {
    forall i | 0 <= i < |fs| && IsEmbedded(fs[i]) ensures TypedBase(fs[i].base, Get(v, fs[i].name).value, true) {
      assert TypedField(fs[i].base, fs[i].kind, Get(v, fs[i].name).value, true);
    }
  }

  lemma {:induction false} PrefixedSetAll(p: seq<string>, fs: seq<Field>, o: Value, v: Value)
    requires Get(o, p).Some? && Get(v, p).Some?
    requires Settable(fs, Get(o, p).value) && AllApart(fs)
    ensures SetAll(o, Prefixed(p, fs), v) == Assigned(o, p, SetAll(Get(o, p).value, fs, Get(v, p).value))
    decreases fs
  {
    var sub := Get(o, p).value;
    if fs == [] {
      SetSame(o, p);
    } else {
      var x := FieldOf(Get(v, p).value, fs[0].name);
      GetThrough(v, p, fs[0].name);
      SettableTail(fs, sub, x);
      SetThrough(o, p, fs[0].name, x);
      var sub1 := Assigned(sub, fs[0].name, x);
      GetAfterSet(o, p, sub1);
      var o1 := Assigned(o, p, sub1);
      PrefixedSetAll(p, fs[1..], o1, v);
      SetAfterSet(o, p, sub1, SetAll(sub1, fs[1..], Get(v, p).value));
      assert Prefixed(p, fs)[1..] == Prefixed(p, fs[1..]);
      GetAfterSet(o, p, SetAll(sub1, fs[1..], Get(v, p).value));
    }
  }

  lemma {:induction false} FlattenOneSetAll(f: Field, o: Value, v: Value)
    requires EmbeddedValid([f]) && Settable([f], o) && Complete([f], v)
    ensures SetAll(o, FlattenOne(f), v) == Assigned(o, f.name, FieldOf(v, f.name))
    decreases f
  {
    assert [f][0] == f;
    if IsEmbedded(f) {
      var sub, x := Get(o, f.name).value, Get(v, f.name).value;
      var fs := f.base.spec.fields;
      FlattenSettable(fs, sub);
      PrefixedSetAll(f.name, Flatten(fs), o, v);
      TypedIsComplete(fs, x);
      SetAllCovers(sub, fs, x);
      FlattenSetAll(fs, sub, x);
    } else {
      assert [f][1..] == [];
    }
  }

  /** Assigning the flattened fields is assigning the fields. */
  lemma {:induction false} FlattenSetAll(fs: seq<Field>, o: Value, v: Value)
    requires EmbeddedValid(fs) && Settable(fs, o) && AllApart(fs) && Complete(fs, v)
    ensures SetAll(o, Flatten(fs), v) == SetAll(o, fs, v)
    decreases fs
  {
    if fs != [] {
      assert forall i :: 0 <= i < |fs[1..]| ==> fs[1..][i] == fs[i + 1];
      FlattenOneSetAll(fs[0], o, v);
      SetAllAppend(o, FlattenOne(fs[0]), Flatten(fs[1..]), v);
      SettableTail(fs, o, FieldOf(v, fs[0].name));
      FlattenSetAll(fs[1..], Assigned(o, fs[0].name, FieldOf(v, fs[0].name)), v);
    }
  }

  lemma {:induction false} FlattenEmbeddedValid(fs: seq<Field>)
    requires EmbeddedValid(fs)
    ensures EmbeddedValid(Flatten(fs))
    decreases fs
  {
    if fs != [] {
      assert forall i :: 0 <= i < |fs[1..]| ==> fs[1..][i] == fs[i + 1];
      FlattenEmbeddedValid(fs[1..]);
      if IsEmbedded(fs[0]) {
        FlattenEmbeddedValid(fs[0].base.spec.fields);
      }
    }
  }
}
