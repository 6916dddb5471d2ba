/**
 Running the generated serialize code writes exactly the naive encoding, except when the
 message holds a fixed-length array of numbers or bytes whose declared length has two
 adjacent nines; then it raises or writes too few bytes.
 */
module Serialization {
  import opened Wrappers
  import opened Sequences
  import opened StructFormat
  import opened Messages
  import opened Attributes
  import opened PyCode
  import opened Genpy

  // ---------------------------------------------------------------- variables the code leaves alone

  /** Variables that code generated at this depth and counter only reads. */
  predicate Stable(u: Var, depth: nat, counter: nat)
  {
    match u
    case Self => true
    case X => false
    case Loop(k) => k < depth
    case Ctx(k) => k <= counter
  }

  predicate Anchored(vars: map<Var, Slot>, p: Path, depth: nat, counter: nat)
  {
    && Stable(p.root, depth, counter) && p.root in vars
    && (vars[p.root].Alias? ==>
          var t := vars[p.root].p;
          Stable(t.root, depth, counter) && t.root in vars && vars[t.root].Own?)
  }

  predicate SameStable(vars: map<Var, Slot>, vars': map<Var, Slot>, depth: nat, counter: nat)
  {
    forall u <- vars :: Stable(u, depth, counter) ==> u in vars' && vars'[u] == vars[u]
  }

  /** Attributes of an object a path denotes. */
  lemma LookupDot(vars: map<Var, Slot>, p: Path, attrs: seq<string>)
    ensures Lookup(vars, p.Dot(attrs)) == match Lookup(vars, p) case Some(o) => Get(o, attrs) case None => None
  {
    var t := Target(vars, p);
    assert Target(vars, p.Dot(attrs)) == t.Dot(attrs) by {
      if p.root in vars && vars[p.root].Alias? {
        assert vars[p.root].p.attrs + (p.attrs + attrs) == vars[p.root].p.attrs + p.attrs + attrs;
      }
    }
    if t.root in vars && vars[t.root].Own? {
      GetThrough(vars[t.root].v, t.attrs, attrs);
    }
  }

  lemma LookupStable(vars: map<Var, Slot>, vars': map<Var, Slot>, p: Path, depth: nat, counter: nat)
    requires Anchored(vars, p, depth, counter) && SameStable(vars, vars', depth, counter)
    ensures Anchored(vars', p, depth, counter) && Lookup(vars', p) == Lookup(vars, p)
  {
  }

  // ---------------------------------------------------------------- when the code goes wrong

  /**
   The message holds a fixed-length array whose length `reduce_pattern` mangles. When reading,
   byte arrays are sliced and their length is never part of a format.
   */
  predicate DamagedBase(mode: Mode, base: Base, v: Value)
    decreases base, 0
  {
    base.Embedded? && DamagedFields(mode, base.spec.fields, v)
  }

  predicate DamagedList(mode: Mode, base: Base, vs: seq<Value>)
    decreases base, 1, |vs|
  {
    vs != [] && (DamagedBase(mode, base, vs[0]) || DamagedList(mode, base, vs[1..]))
  }

  predicate DamagedField(mode: Mode, base: Base, kind: Kind, v: Value)
    decreases base, 2
  {
    if kind.Scalar? then DamagedBase(mode, base, v)
    else if base.Prim? then kind.FixedLength? && AdjacentNines(Dec(kind.n)) && (mode.Serialize? || !IsByteArray(base, kind))
    else v.List? && DamagedList(mode, base, v.vs)
  }

  predicate DamagedAt(mode: Mode, f: Field, v: Value)
    decreases f
  {
    Get(v, f.name).Some? && DamagedField(mode, f.base, f.kind, Get(v, f.name).value)
  }

  predicate DamagedFields(mode: Mode, fs: seq<Field>, v: Value)
    decreases fs
  {
    fs != [] && (DamagedAt(mode, fs[0], v) || DamagedFields(mode, fs[1..], v))
  }

  lemma ListDamage(mode: Mode, base: Base, vs: seq<Value>)
    requires vs != []
    ensures DamagedList(mode, base, vs) == (DamagedBase(mode, base, vs[0]) || DamagedList(mode, base, vs[1..]))
  {
  }

  /** The result of running a piece of code that should write `bytes`. */
  predicate Outcome(st: State, r: Option<State>, bytes: seq<Byte>, damaged: bool, depth: nat, counter: nat)
  {
    && (!damaged ==> r.Some?)
    && (r.Some? ==>
          && SameStable(st.vars, r.value.vars, depth, counter)
          && (if damaged then |r.value.buff| < |st.buff| + |bytes| else r.value.buff == st.buff + bytes))
  }

  // ---------------------------------------------------------------- sequencing

  lemma {:induction false} ExecAppend(a: seq<Stmt>, b: seq<Stmt>, st: State, env: Env)
    ensures Exec(a + b, st, env) == match Exec(a, st, env) case Some(st') => Exec(b, st', env) case None => None
  {
    if a == [] {
      assert a + b == b;
    } else {
      assert (a + b)[1..] == a[1..] + b;
      match Run(a[0], st, env)
      case Some(st') => ExecAppend(a[1..], b, st', env);
      case None =>
    }
  }

  lemma ExecSingle(s: Stmt, st: State, env: Env)
    ensures Exec([s], st, env) == Run(s, st, env)
  {
    var r := Run(s, st, env);
    assert [s][1..] == [];
  }

  lemma ExecTwo(s: Stmt, t: Stmt, st: State, st1: State, env: Env)
    requires Run(s, st, env) == Some(st1)
    ensures Exec([s, t], st, env) == Run(t, st1, env)
  {
    ExecSingle(s, st, env);
    ExecSingle(t, st1, env);
    ExecAppend([s], [t], st, env);
    assert [s] + [t] == [s, t];
  }

  lemma Weaken(st: State, r: Option<State>, bytes: seq<Byte>, damaged: bool,
               depth: nat, counter: nat, depth': nat, counter': nat)
    requires Outcome(st, r, bytes, damaged, depth, counter) && depth' <= depth && counter' <= counter
    ensures Outcome(st, r, bytes, damaged, depth', counter')
  {
  }

  // ---------------------------------------------------------------- chunks of simple fields

  function Values(fs: seq<Field>, o: Value): (vs: seq<Value>)
    ensures |vs| == |fs|
  {
    seq(|fs|, i requires 0 <= i < |fs| => match Get(o, fs[i].name) case Some(v) => v case None => NoneValue)
  }

  lemma {:induction false} LookupFields(vars: map<Var, Slot>, base: Path, fs: seq<Field>, o: Value)
    requires Lookup(vars, base) == Some(o)
    requires forall i :: 0 <= i < |fs| ==> Get(o, fs[i].name).Some?
    ensures LookupAll(vars, FieldPaths(base, fs)) == Some(Values(fs, o))
  {
    hide Lookup, Get;
    if fs == [] {
      assert FieldPaths(base, fs) == [] && Values(fs, o) == [];
    } else {
      LookupDot(vars, base, fs[0].name);
      LookupFields(vars, base, fs[1..], o);
      assert FieldPaths(base, fs)[1..] == FieldPaths(base, fs[1..]) && FieldPaths(base, fs)[0] == base.Dot(fs[0].name);
      assert Values(fs, o) == [Values(fs, o)[0]] + Values(fs[1..], o);
    }
  }

  lemma PackPrim(t: Simple, v: Value)
    requires TypedBase(Prim(t), v, false)
    ensures PackItem(Number(Code(t)), v) == Some(EncodeBase(Prim(t), v))
  {
  }

  lemma PackCons(item: Item, v: Value, head: seq<Byte>, items: seq<Item>, vs: seq<Value>, tail: seq<Byte>)
    requires PackItem(item, v) == Some(head) && PackItems(items, vs) == Some(tail)
    ensures PackItems([item] + items, [v] + vs) == Some(head + tail)
  {
    assert ([item] + items)[1..] == items && ([v] + vs)[1..] == vs;
  }

  lemma {:induction false} PackFields(fs: seq<Field>, o: Value)
    requires forall i :: 0 <= i < |fs| ==> IsSimple(fs[i])
    requires TypedFields(fs, o, false)
    ensures PackItems(Numbers(StructPattern(fs)), Values(fs, o)) == Some(EncodeFields(fs, o))
    ensures !DamagedFields(Serialize, fs, o)
  {
    if fs != [] {
      TypedTail(fs, o);
      PackFields(fs[1..], o);
      var x := Get(o, fs[0].name).value;
      assert TypedBase(fs[0].base, x, false);
      PackPrim(fs[0].base.t, x);
      SimpleEncodes(Serialize, fs[0], o, x);
      PatternCons(fs, o);
      PackCons(Number(Code(fs[0].base.t)), x, EncodeAt(fs[0], o), Numbers(StructPattern(fs[1..])), Values(fs[1..], o), EncodeFields(fs[1..], o));
    }
  }

  lemma SimpleEncodes(mode: Mode, f: Field, o: Value, x: Value)
    requires IsSimple(f) && Get(o, f.name) == Some(x)
    ensures EncodeAt(f, o) == EncodeBase(f.base, x) && !DamagedAt(mode, f, o)
  {
    assert EncodeField(f.base, f.kind, x) == EncodeBase(f.base, x);
    assert DamagedField(mode, f.base, f.kind, x) == DamagedBase(mode, f.base, x) == false;
  }

  lemma PatternCons(fs: seq<Field>, o: Value)
    requires fs != [] && forall i :: 0 <= i < |fs| ==> IsSimple(fs[i])
    ensures Numbers(StructPattern(fs)) == [Number(Code(fs[0].base.t))] + Numbers(StructPattern(fs[1..]))
    ensures Values(fs, o) == [Values(fs, o)[0]] + Values(fs[1..], o)
  {
  }

  lemma TypedTail(fs: seq<Field>, o: Value)
    requires fs != [] && TypedFields(fs, o, false)
    ensures Get(o, fs[0].name).Some? && TypedField(fs[0].base, fs[0].kind, Get(o, fs[0].name).value, false)
    ensures TypedFields(fs[1..], o, false)
  {
    assert forall i :: 0 <= i < |fs[1..]| ==> fs[1..][i] == fs[i + 1];
  }

  /** `_x = p`: afterwards `_x` denotes the same value. */
  lemma AssignX(p: Path, st: State, env: Env, v: Value, depth: nat, counter: nat) returns (st': State)
    requires Anchored(st.vars, p, depth, counter) && Lookup(st.vars, p) == Some(v)
    ensures Run(Assign(X, p), st, env) == Some(st')
    ensures st' == st.(vars := st'.vars) && SameStable(st.vars, st'.vars, depth, counter)
    ensures Lookup(st'.vars, Path(X, [])) == Some(v)
  {
    var t := Target(st.vars, p);
    st' := st.(vars := st.vars[X := if v.Rec? then Alias(t) else Own(v)]);
    assert t.attrs + [] == t.attrs;
  }

  lemma WriteFields(fs: seq<Field>, base: Path, st: State, env: Env, o: Value)
    requires forall i :: 0 <= i < |fs| ==> IsSimple(fs[i])
    requires Lookup(st.vars, base) == Some(o)
    requires TypedFields(fs, o, false)
    requires Reduce(StructPattern(fs)) in env.structs
    ensures Run(WriteStruct(Reduce(StructPattern(fs)), FieldPaths(base, fs)), st, env)
            == Some(st.(buff := st.buff + EncodeFields(fs, o)))
  {
    ReduceIsLossless(StructPattern(fs));
    PackFields(fs, o);
    LookupFields(st.vars, base, fs, o);
    RunPack(Reduce(StructPattern(fs)), Numbers(StructPattern(fs)), FieldPaths(base, fs), Values(fs, o), st, env);
  }

  lemma RunPack(pattern: string, items: seq<Item>, ps: seq<Path>, vs: seq<Value>, st: State, env: Env)
    requires pattern in env.structs && Items(pattern) == Some(items)
    requires LookupAll(st.vars, ps) == Some(vs)
    ensures Run(WriteStruct(pattern, ps), st, env) == Emit(st, PackItems(items, vs))
  {
    hide Items, PackItems, LookupAll, Exec;
  }

  lemma RunPackList(pattern: string, items: seq<Item>, p: Path, vs: seq<Value>, st: State, env: Env)
    requires pattern in env.structs && Items(pattern) == Some(items)
    requires LookupList(st.vars, p) == Some(vs)
    ensures Run(WriteStar(pattern, p), st, env) == Emit(st, PackItems(items, vs))
  {
    hide Items, PackItems, Lookup, Exec;
  }

  lemma SimpleWrites(fs: seq<Field>, ctx: Path, depth: nat, counter: nat, st: State, env: Env, o: Value)
    requires fs != [] && forall i :: 0 <= i < |fs| ==> IsSimple(fs[i])
    requires Anchored(st.vars, ctx, depth, counter) && Lookup(st.vars, ctx) == Some(o)
    requires TypedFields(fs, o, false)
    requires forall p <- SimpleGen(fs, ctx, counter, Serialize).patterns :: p in env.structs
    ensures Outcome(st, Exec(SimpleGen(fs, ctx, counter, Serialize).code, st, env), EncodeFields(fs, o), false, depth, counter)
    ensures !DamagedFields(Serialize, fs, o)
  {
    hide Exec, Run, Step, ExecFor, ExecRepeat, Get, Set, Lookup, Target, Store;
    var g := SimpleGen(fs, ctx, counter, Serialize);
    var pattern := Reduce(StructPattern(fs));
    assert pattern == g.patterns[0];
    PackFields(fs, o);
    if |fs| > 1 {
      var st1 := AssignX(ctx, st, env, o, depth, counter);
      WriteFields(fs, Path(X, []), st1, env, o);
      ExecTwo(Assign(X, ctx), WriteStruct(pattern, FieldPaths(Path(X, []), fs)), st, st1, env);
      assert g.code == [Assign(X, ctx), WriteStruct(pattern, FieldPaths(Path(X, []), fs))];
    } else {
      WriteFields(fs, ctx, st, env, o);
      ExecSingle(WriteStruct(pattern, FieldPaths(ctx, fs)), st, env);
      assert g.code == [WriteStruct(pattern, FieldPaths(ctx, fs))];
    }
  }

  // ---------------------------------------------------------------- strings and byte arrays

  lemma ExecLen(q: Path, st: State, env: Env, v: Value, rest: seq<Stmt>)
    requires Lookup(st.vars, q) == Some(v) && (v.Bytes? || v.List?)
    ensures Exec([Len(q)] + rest, st, env) == Exec(rest, st.(length := LengthOf(v)), env)
  {
    ExecAppend([Len(q)], rest, st, env);
    ExecSingle(Len(q), st, env);
  }

  lemma RunWriteText(q: Path, st: State, env: Env, v: Value)
    requires Lookup(st.vars, q) == Some(v) && v.Bytes?
    requires st.length == |v.b| < UINT32_LIMIT
    ensures Run(WriteText(q), st, env) == Some(st.(buff := st.buff + (LE(|v.b|, 4) + BytesOf(v))))
  {
    assert Fit(v.b, |v.b|) == v.b;
    assert st.buff + (LE(|v.b|, 4) + v.b) == st.buff + LE(|v.b|, 4) + v.b;
  }

  lemma {:induction false} PackBytes(vs: seq<Value>)
    requires forall i :: 0 <= i < |vs| ==> vs[i].Num? && 0 <= vs[i].n < 256
    ensures PackItems(Repeat(Number('B'), |vs|), vs) == Some(BytesOf(List(vs)))
  {
    if vs != [] {
      PackBytes(vs[1..]);
      RepeatCons(Number('B'), |vs|);
      var n := vs[0].n;
      assert LE(n, 1) == [n % 256] + LE(n / 256, 0) == [n];
      assert BytesOf(List(vs)) == [n] + BytesOf(List(vs[1..]));
    }
  }

  lemma RunWriteTextList(q: Path, st: State, env: Env, v: Value)
    requires Lookup(st.vars, q) == Some(v) && v.List? && BytesLike(v, false)
    requires st.length == |v.vs| < UINT32_LIMIT
    ensures Run(WriteTextList(q), st, env) == Some(st.(buff := st.buff + (LE(|v.vs|, 4) + BytesOf(v))))
  {
    PackBytes(v.vs);
    assert st.buff + (LE(|v.vs|, 4) + BytesOf(v)) == st.buff + LE(|v.vs|, 4) + BytesOf(v);
  }

  /** The optional `_x = p` in front of string code. */
  lemma Prologue(p: Path, inContext: bool, st: State, env: Env, v: Value, depth: nat, counter: nat, body: seq<Stmt>)
    returns (q: Path, st': State)
    requires Anchored(st.vars, p, depth, counter) && Lookup(st.vars, p) == Some(v)
    ensures q == if inContext then Path(X, []) else p
    ensures st' == st.(vars := st'.vars) && SameStable(st.vars, st'.vars, depth, counter)
    ensures Lookup(st'.vars, q) == Some(v)
    ensures Exec((if inContext then [Assign(X, p)] else []) + body, st, env) == Exec(body, st', env)
  {
    if inContext {
      st' := AssignX(p, st, env, v, depth, counter);
      q := Path(X, []);
      ExecAppend([Assign(X, p)], body, st, env);
      ExecSingle(Assign(X, p), st, env);
    } else {
      q, st' := p, st;
      assert [] + body == body;
    }
  }

  lemma TextWrites(p: Path, inContext: bool, depth: nat, counter: nat, st: State, env: Env, v: Value)
    requires Anchored(st.vars, p, depth, counter) && Lookup(st.vars, p) == Some(v)
    requires TypedBase(Text, v, false)
    ensures Outcome(st, Exec(StringGen(false, Scalar, p, inContext, counter, Serialize).code, st, env),
                    EncodeBase(Text, v), false, depth, counter)
  {
    var g := StringGen(false, Scalar, p, inContext, counter, Serialize);
    var q := if inContext then Path(X, []) else p;
    var body := [Len(q)] + [WriteText(q)];
    var q', st1 := Prologue(p, inContext, st, env, v, depth, counter, body);
    assert g.code == (if inContext then [Assign(X, p)] else []) + body;
    ExecLen(q, st1, env, v, [WriteText(q)]);
    var st2 := st1.(length := LengthOf(v));
    ExecSingle(WriteText(q), st2, env);
    RunWriteText(q, st2, env, v);
  }

  lemma RunIfList(q: Path, thn: Stmt, els: Stmt, st: State, env: Env, v: Value)
    requires Lookup(st.vars, q) == Some(v)
    ensures Exec([IfList(q, [thn], [els])], st, env) == if v.List? then Run(thn, st, env) else Run(els, st, env)
  {
    ExecSingle(IfList(q, [thn], [els]), st, env);
    ExecSingle(thn, st, env);
    ExecSingle(els, st, env);
  }

  lemma VarBytesWrites(p: Path, depth: nat, counter: nat, st: State, env: Env, v: Value)
    requires Anchored(st.vars, p, depth, counter) && Lookup(st.vars, p) == Some(v)
    requires BytesLike(v, false) && LengthFits(VarLength, v)
    ensures Outcome(st, Exec(StringGen(true, VarLength, p, true, counter, Serialize).code, st, env),
                    LE(LengthOf(v), 4) + BytesOf(v), false, depth, counter)
  {
    var g := StringGen(true, VarLength, p, true, counter, Serialize);
    var q := Path(X, []);
    var choice := IfList(q, [WriteTextList(q)], [WriteText(q)]);
    var body := [Len(q)] + [choice];
    var q', st1 := Prologue(p, true, st, env, v, depth, counter, body);
    assert g.code == [Assign(X, p)] + body;
    ExecLen(q, st1, env, v, [choice]);
    var st2 := st1.(length := LengthOf(v));
    RunIfList(q, WriteTextList(q), WriteText(q), st2, env, v);
    if v.List? {
      RunWriteTextList(q, st2, env, v);
    } else {
      RunWriteText(q, st2, env, v);
    }
  }

  /** `pack` with a counted format: the mangled count loses bytes or makes `struct` raise. */
  lemma RunWriteCounted(q: Path, n: nat, c: char, st: State, env: Env, v: Value, depth: nat, counter: nat)
    requires Lookup(st.vars, q) == Some(v) && Reduce(Dec(n) + [c]) in env.structs
    requires (v.List? && |v.vs| == n && IsCode(c)) || (v.Bytes? && |v.b| == n && c == 's')
    requires v.List? ==> PackItems(Repeat(Number(c), n), v.vs).Some?
    ensures
      var bytes := if v.List? then PackItems(Repeat(Number(c), n), v.vs).value else v.b;
      var s := if v.List? then WriteStar(Reduce(Dec(n) + [c]), q) else WriteStruct(Reduce(Dec(n) + [c]), [q]);
      Outcome(st, Run(s, st, env), bytes, AdjacentNines(Dec(n)), depth, counter)
  {
    ReducedCountedItems(n, c);
    CountKeptIffNoAdjacentNines(n);
    var k := ReducedCount(n);
    var pattern := Reduce(Dec(n) + [c]);
    if v.List? {
      RunPackList(pattern, Repeat(Number(c), k), q, v.vs, st, env);
    } else {
      assert LookupAll(st.vars, [q]) == Some([v]) by {
        assert [q][1..] == [] && [v] + [] == [v];
      }
      RunPack(pattern, [Blob(k)], [q], [v], st, env);
      BlobPacks(k, v);
    }
  }

  lemma BlobPacks(k: nat, v: Value)
    requires v.Bytes?
    ensures PackItems([Blob(k)], [v]) == Some(Fit(v.b, k))
    ensures k == |v.b| ==> Fit(v.b, k) == v.b
  {
    assert PackItems([Blob(k)][1..], [v][1..]) == Some([]);
    assert Fit(v.b, k) + [] == Fit(v.b, k);
  }

  lemma FixedBytesWrites(n: nat, p: Path, depth: nat, counter: nat, st: State, env: Env, v: Value)
    requires Anchored(st.vars, p, depth, counter) && Lookup(st.vars, p) == Some(v)
    requires BytesLike(v, false) && LengthOf(v) == n
    requires forall q <- StringGen(true, FixedLength(n), p, true, counter, Serialize).patterns :: q in env.structs
    ensures Outcome(st, Exec(StringGen(true, FixedLength(n), p, true, counter, Serialize).code, st, env),
                    BytesOf(v), AdjacentNines(Dec(n)), depth, counter)
  {
    var g := StringGen(true, FixedLength(n), p, true, counter, Serialize);
    var q := Path(X, []);
    var asList, asBytes := Reduce(Dec(n) + "B"), Reduce(Dec(n) + "s");
    assert asList == g.patterns[0] && asBytes == g.patterns[1];
    var body := [IfList(q, [WriteStar(asList, q)], [WriteStruct(asBytes, [q])])];
    var q', st1 := Prologue(p, true, st, env, v, depth, counter, body);
    assert g.code == [Assign(X, p)] + body;
    RunIfList(q, WriteStar(asList, q), WriteStruct(asBytes, [q]), st1, env, v);
    if v.List? {
      PackBytes(v.vs);
      RunWriteCounted(q, n, 'B', st1, env, v, depth, counter);
    } else {
      RunWriteCounted(q, n, 's', st1, env, v, depth, counter);
    }
  }

  // ---------------------------------------------------------------- arrays of simple types

  lemma {:induction false} PackList(t: Simple, vs: seq<Value>)
    requires forall i :: 0 <= i < |vs| ==> TypedBase(Prim(t), vs[i], false)
    ensures PackItems(Repeat(Number(Code(t)), |vs|), vs) == Some(EncodeList(Prim(t), vs))
  {
    if vs != [] {
      PackList(t, vs[1..]);
      assert TypedBase(Prim(t), vs[0], false);
      RepeatCons(Number(Code(t)), |vs|);
    }
  }

  lemma RunWriteLength(st: State, env: Env)
    requires "I" in env.structs && st.length < UINT32_LIMIT
    ensures Run(WriteLength, st, env) == Some(st.(buff := st.buff + LE(st.length, 4)))
  {
  }

  /** `pattern = ...` followed by packing with it. */
  lemma PatternWrites(t: Simple, p: Path, st: State, env: Env, v: Value)
    requires Lookup(st.vars, p) == Some(v) && v.List? && st.length == |v.vs|
    requires forall i :: 0 <= i < |v.vs| ==> TypedBase(Prim(t), v.vs[i], false)
    ensures Exec([SetPattern(Code(t)), WritePattern(p)], st, env)
            == Some(st.(pattern := (Code(t), st.length), buff := st.buff + EncodeList(Prim(t), v.vs)))
  {
    var st' := st.(pattern := (Code(t), st.length));
    assert Run(SetPattern(Code(t)), st, env) == Some(st');
    ExecTwo(SetPattern(Code(t)), WritePattern(p), st, st', env);
    PackList(t, v.vs);
  }

  /** The length in front of an array. */
  lemma LengthWrites(p: Path, st: State, env: Env, v: Value, rest: seq<Stmt>)
    requires Lookup(st.vars, p) == Some(v) && v.List? && "I" in env.structs
    requires LengthFits(VarLength, v)
    ensures Exec(LenCode(p, false, Serialize) + rest, st, env)
            == Exec(rest, st.(length := |v.vs|, buff := st.buff + LE(|v.vs|, 4)), env)
  {
    assert LenCode(p, false, Serialize) + rest == [Len(p)] + ([WriteLength] + rest);
    ExecLen(p, st, env, v, [WriteLength] + rest);
    var st1 := st.(length := |v.vs|);
    ExecAppend([WriteLength], rest, st1, env);
    ExecSingle(WriteLength, st1, env);
    RunWriteLength(st1, env);
  }

  lemma VarArrayWrites(t: Simple, p: Path, depth: nat, counter: nat, st: State, env: Env, v: Value)
    requires Lookup(st.vars, p) == Some(v) && v.List? && "I" in env.structs
    requires LengthFits(VarLength, v)
    requires forall i :: 0 <= i < |v.vs| ==> TypedBase(Prim(t), v.vs[i], false)
    ensures Outcome(st, Exec(SimpleArrayGen(t, VarLength, p, counter, Serialize).code, st, env),
                    LE(LengthOf(v), 4) + EncodeList(Prim(t), v.vs), false, depth, counter)
  {
    var g := SimpleArrayGen(t, VarLength, p, counter, Serialize);
    var write := [SetPattern(Code(t)), WritePattern(p)];
    assert g.code == LenCode(p, false, Serialize) + write;
    LengthWrites(p, st, env, v, write);
    var st1 := st.(length := |v.vs|, buff := st.buff + LE(|v.vs|, 4));
    PatternWrites(t, p, st1, env, v);
    Associative(st.buff, LE(|v.vs|, 4), EncodeList(Prim(t), v.vs));
  }

  lemma FixedArrayWrites(t: Simple, n: nat, p: Path, depth: nat, counter: nat, st: State, env: Env, v: Value)
    requires Lookup(st.vars, p) == Some(v) && v.List? && |v.vs| == n
    requires forall i :: 0 <= i < |v.vs| ==> TypedBase(Prim(t), v.vs[i], false)
    requires forall q <- SimpleArrayGen(t, FixedLength(n), p, counter, Serialize).patterns :: q in env.structs
    ensures Outcome(st, Exec(SimpleArrayGen(t, FixedLength(n), p, counter, Serialize).code, st, env),
                    EncodeList(Prim(t), v.vs), AdjacentNines(Dec(n)), depth, counter)
  {
    var g := SimpleArrayGen(t, FixedLength(n), p, counter, Serialize);
    var pattern := Reduce(Dec(n) + [Code(t)]);
    assert pattern == g.patterns[0];
    assert g.code == [WriteStar(pattern, p)];
    ExecSingle(WriteStar(pattern, p), st, env);
    PackList(t, v.vs);
    RunWriteCounted(p, n, Code(t), st, env, v, depth, counter);
  }

  // ---------------------------------------------------------------- whole field lists

  lemma Monotone(vars: map<Var, Slot>, p: Path, depth: nat, counter: nat, depth': nat, counter': nat)
    requires Anchored(vars, p, depth, counter) && depth <= depth' && counter <= counter'
    ensures Anchored(vars, p, depth', counter')
  {
  }

  predicate Defined(g: Gen, env: Env)
  {
    "I" in env.structs && forall p <- g.patterns :: p in env.structs
  }

  /** One element, held by the loop variable. */
  lemma {:induction false} ItemWrites(base: Base, depth: nat, counter: nat, v: Value, st: State, env: Env)
    requires !base.Prim? && TypedBase(base, v, false) && Defined(ItemGen(base, depth, counter, Serialize), env)
    ensures Outcome(st, Exec(ItemGen(base, depth, counter, Serialize).code, st.(vars := st.vars[Loop(depth) := Own(v)]), env),
                    EncodeBase(base, v), DamagedBase(Serialize, base, v), depth, counter)
    decreases base, 0
  {
    hide Exec, StringGen, FieldsGen, Outcome, Anchored, TypedFields;
    var item := Path(Loop(depth), []);
    var st0 := st.(vars := st.vars[Loop(depth) := Own(v)]);
    LoopVariable(depth, counter, v, st);
    if base.Text? {
      TextWrites(item, false, depth + 1, counter, st0, env, v);
    } else {
      FieldsWrite(base.spec.fields, item, depth + 1, counter, st0, env, v);
    }
    FromOutside(st, st0, Exec(ItemGen(base, depth, counter, Serialize).code, st0, env), EncodeBase(base, v), DamagedBase(Serialize, base, v), depth, counter, v);
  }

  lemma LoopVariable(depth: nat, counter: nat, v: Value, st: State)
    ensures var vars := st.vars[Loop(depth) := Own(v)]; var item := Path(Loop(depth), []);
      Anchored(vars, item, depth + 1, counter) && Lookup(vars, item) == Some(v)
  {
  }

  /** The loop variable is none that code outside the loop reads. */
  lemma FromOutside(st: State, st0: State, r: Option<State>, bytes: seq<Byte>, damaged: bool, depth: nat, counter: nat, v: Value)
    requires st0 == st.(vars := st.vars[Loop(depth) := Own(v)]) && Outcome(st0, r, bytes, damaged, depth + 1, counter)
    ensures Outcome(st, r, bytes, damaged, depth, counter)
  {
  }

  lemma {:induction false} ForWrites(base: Base, vs: seq<Value>, depth: nat, counter: nat, st: State, env: Env)
    requires !base.Prim? && Defined(ItemGen(base, depth, counter, Serialize), env)
    requires forall i :: 0 <= i < |vs| ==> TypedBase(base, vs[i], false)
    ensures Outcome(st, ExecFor(Loop(depth), vs, ItemGen(base, depth, counter, Serialize).code, st, env),
                    EncodeList(base, vs), DamagedList(Serialize, base, vs), depth, counter)
    decreases base, 1, |vs|
  {
    if vs != [] {
      assert TypedBase(base, vs[0], false);
      ItemWrites(base, depth, counter, vs[0], st, env);
      var r := Exec(ItemGen(base, depth, counter, Serialize).code, st.(vars := st.vars[Loop(depth) := Own(vs[0])]), env);
      if r.Some? {
        ForWrites(base, vs[1..], depth, counter, r.value, env);
        Chain(st, r.value, ExecFor(Loop(depth), vs[1..], ItemGen(base, depth, counter, Serialize).code, r.value, env),
              EncodeBase(base, vs[0]), EncodeList(base, vs[1..]), DamagedBase(Serialize, base, vs[0]), DamagedList(Serialize, base, vs[1..]), depth, counter);
      }
    }
  }

  lemma Chain(st: State, st1: State, r: Option<State>, a: seq<Byte>, b: seq<Byte>, damagedA: bool, damagedB: bool,
              depth: nat, counter: nat)
    requires Outcome(st, Some(st1), a, damagedA, depth, counter) && Outcome(st1, r, b, damagedB, depth, counter)
    ensures Outcome(st, r, a + b, damagedA || damagedB, depth, counter)
  {
    Associative(st.buff, a, b);
  }

  lemma LoopWrites(base: Base, kind: Kind, p: Path, depth: nat, counter: nat, st: State, env: Env, v: Value)
    requires !base.Prim? && !kind.Scalar?
    requires Anchored(st.vars, p, depth, counter) && Lookup(st.vars, p) == Some(v)
    requires TypedField(base, kind, v, false)
    requires Defined(LoopGen(base, kind, p, depth, counter, Serialize), env)
    ensures Outcome(st, Exec(LoopGen(base, kind, p, depth, counter, Serialize).code, st, env),
                    EncodeField(base, kind, v), DamagedField(Serialize, base, kind, v), depth, counter)
    decreases base, 2
  {
    var loop := [ForIn(Loop(depth), p, ItemGen(base, depth, counter, Serialize).code)];
    assert v.List? && (forall i :: 0 <= i < |v.vs| ==> TypedBase(base, v.vs[i], false));
    var st1 := if kind.VarLength? then st.(length := |v.vs|, buff := st.buff + LE(|v.vs|, 4)) else st;
    RunFor(Loop(depth), p, ItemGen(base, depth, counter, Serialize).code, st1, env, v.vs);
    ForWrites(base, v.vs, depth, counter, st1, env);
    if kind.VarLength? {
      LengthWrites(p, st, env, v, loop);
      Associative(st.buff, LE(|v.vs|, 4), EncodeList(base, v.vs));
    } else {
      assert [] + EncodeList(base, v.vs) == EncodeList(base, v.vs);
    }
  }

  lemma RunFor(x: Var, p: Path, body: seq<Stmt>, st: State, env: Env, vs: seq<Value>)
    requires LookupList(st.vars, p) == Some(vs)
    ensures Exec([ForIn(x, p, body)], st, env) == ExecFor(x, vs, body, st, env)
  {
    ExecSingle(ForIn(x, p, body), st, env);
  }

  lemma ComplexWrites(f: Field, ctx: Path, depth: nat, counter: nat, st: State, env: Env, o: Value)
    requires !IsSimple(f)
    requires Anchored(st.vars, ctx, depth, counter) && Lookup(st.vars, ctx) == Some(o)
    requires Get(o, f.name).Some? && TypedField(f.base, f.kind, Get(o, f.name).value, false)
    requires Defined(ComplexGen(f, ctx, depth, counter, Serialize), env)
    ensures Outcome(st, Exec(ComplexGen(f, ctx, depth, counter, Serialize).code, st, env),
                    EncodeField(f.base, f.kind, Get(o, f.name).value),
                    DamagedField(Serialize, f.base, f.kind, Get(o, f.name).value), depth, counter)
    decreases f, 1
  {
    hide Exec, Run, Step, ExecFor, ExecRepeat, Get, Set, Lookup, Target, Store;
    var p := ctx.Dot(f.name);
    var v := Get(o, f.name).value;
    LookupDot(st.vars, ctx, f.name);
    if !f.kind.Scalar? {
      if IsByteArray(f.base, f.kind) {
        if f.kind.VarLength? {
          VarBytesWrites(p, depth, counter, st, env, v);
        } else {
          FixedBytesWrites(f.kind.n, p, depth, counter, st, env, v);
          assert [] + BytesOf(v) == BytesOf(v);
        }
      } else if f.base.Prim? {
        if f.kind.VarLength? {
          VarArrayWrites(f.base.t, p, depth, counter, st, env, v);
        } else {
          FixedArrayWrites(f.base.t, f.kind.n, p, depth, counter, st, env, v);
          assert [] + EncodeList(f.base, v.vs) == EncodeList(f.base, v.vs);
        }
      } else {
        LoopWrites(f.base, f.kind, p, depth, counter, st, env, v);
      }
    } else if f.base.Text? {
      TextWrites(p, true, depth, counter, st, env, v);
    } else {
      EmbeddedWrites(f, p, depth, counter, st, env, v);
    }
  }

  /** `_v<N> = p` for an object: the new variable is an alias of the object. */
  lemma AssignCtx(p: Path, st: State, env: Env, v: Value, depth: nat, counter: nat, rest: seq<Stmt>) returns (st': State)
    requires Anchored(st.vars, p, depth, counter) && Lookup(st.vars, p) == Some(v) && v.Rec?
    ensures Exec([Assign(Ctx(counter + 1), p)] + rest, st, env) == Exec(rest, st', env)
    ensures st' == st.(vars := st.vars[Ctx(counter + 1) := Alias(Target(st.vars, p))])
    ensures var q := Path(Ctx(counter + 1), []);
      Anchored(st'.vars, q, depth + 1, counter + 1) && Lookup(st'.vars, q) == Some(v) && Target(st'.vars, q) == Target(st.vars, p)
  {
    var u := Ctx(counter + 1);
    var t := Target(st.vars, p);
    st' := st.(vars := st.vars[u := Alias(t)]);
    assert Run(Assign(u, p), st, env) == Some(st');
    ExecAppend([Assign(u, p)], rest, st, env);
    ExecSingle(Assign(u, p), st, env);
    assert t.attrs + [] == t.attrs;
  }

  /** `_v<N> = p` and then the fields of the embedded message. */
  lemma EmbeddedWrites(f: Field, p: Path, depth: nat, counter: nat, st: State, env: Env, v: Value)
    requires IsEmbedded(f)
    requires Anchored(st.vars, p, depth, counter) && Lookup(st.vars, p) == Some(v)
    requires TypedBase(f.base, v, false)
    requires Defined(FieldsGen(f.base.spec.fields, Path(Ctx(counter + 1), []), depth + 1, counter + 1, Serialize), env)
    ensures
      var sub := FieldsGen(f.base.spec.fields, Path(Ctx(counter + 1), []), depth + 1, counter + 1, Serialize);
      Outcome(st, Exec([Assign(Ctx(counter + 1), p)] + sub.code, st, env), EncodeBase(f.base, v), DamagedBase(Serialize, f.base, v), depth, counter)
    decreases f, 0
  {
    hide Exec, Run, Step, ExecFor, ExecRepeat, Get, Set, Lookup, Target, Store;
    var u := Ctx(counter + 1);
    var code := FieldsGen(f.base.spec.fields, Path(u, []), depth + 1, counter + 1, Serialize).code;
    var st1 := AssignCtx(p, st, env, v, depth, counter, code);
    FieldsWrite(f.base.spec.fields, Path(u, []), depth + 1, counter + 1, st1, env, v);
    Weaken(st1, Exec(code, st1, env), EncodeBase(f.base, v), DamagedBase(Serialize, f.base, v), depth + 1, counter + 1, depth, counter);
  }

  lemma {:induction false} EncodeAppend(a: seq<Field>, b: seq<Field>, o: Value)
    ensures EncodeFields(a + b, o) == EncodeFields(a, o) + EncodeFields(b, o)
  {
    if a == [] {
      assert a + b == b;
    } else {
      EncodeAppend(a[1..], b, o);
      assert (a + b)[1..] == a[1..] + b && (a + b)[0] == a[0];
      Associative(EncodeAt(a[0], o), EncodeFields(a[1..], o), EncodeFields(b, o));
    }
  }

  lemma {:induction false} DamageAppend(mode: Mode, a: seq<Field>, b: seq<Field>, o: Value)
    ensures DamagedFields(mode, a + b, o) == (DamagedFields(mode, a, o) || DamagedFields(mode, b, o))
  {
    if a == [] {
      assert a + b == b;
    } else {
      DamageAppend(mode, a[1..], b, o);
      assert (a + b)[1..] == a[1..] + b && (a + b)[0] == a[0];
    }
  }

  lemma TypedSplit(fs: seq<Field>, k: nat, o: Value)
    requires k <= |fs| && TypedFields(fs, o, false)
    ensures TypedFields(fs[..k], o, false) && TypedFields(fs[k..], o, false)
  {
    assert forall i :: 0 <= i < |fs[k..]| ==> fs[k..][i] == fs[k + i];
  }

  lemma {:induction false} ChunksWrite(fs: seq<Field>, ctx: Path, depth: nat, counter: nat, st: State, env: Env, o: Value)
    requires Anchored(st.vars, ctx, depth, counter) && Lookup(st.vars, ctx) == Some(o)
    requires TypedFields(fs, o, false)
    requires Defined(ChunksGen(fs, ctx, depth, counter, Serialize), env)
    ensures Outcome(st, Exec(ChunksGen(fs, ctx, depth, counter, Serialize).code, st, env),
                    EncodeFields(fs, o), DamagedFields(Serialize, fs, o), depth, counter)
    decreases fs, 2
  {
    if fs != [] {
      var first := FirstWrites(fs, ctx, depth, counter, st, env, o);
      RestWrites(ChunksGen(fs, ctx, depth, counter, Serialize), fs, FirstLength(fs), ctx, depth, counter, first, st, env, o);
    }
  }

  /** How many fields the first piece of code covers. */
  function FirstLength(fs: seq<Field>): (n: nat)
    requires fs != []
    ensures 1 <= n <= |fs|
  {
    if ChunkLength(fs) > 0 then ChunkLength(fs) else 1
  }

  /** The first chunk, or the first field when it is not simple. */
  lemma {:induction false} FirstWrites(fs: seq<Field>, ctx: Path, depth: nat, counter: nat, st: State, env: Env, o: Value)
    returns (first: Gen)
    requires fs != []
    requires Anchored(st.vars, ctx, depth, counter) && Lookup(st.vars, ctx) == Some(o)
    requires TypedFields(fs, o, false)
    requires Defined(ChunksGen(fs, ctx, depth, counter, Serialize), env)
    ensures first.counter >= counter
    ensures ChunksGen(fs, ctx, depth, counter, Serialize)
            == first.Then(ChunksGen(fs[FirstLength(fs)..], ctx, depth, first.counter, Serialize))
    ensures Outcome(st, Exec(first.code, st, env), EncodeFields(fs[..FirstLength(fs)], o), DamagedFields(Serialize, fs[..FirstLength(fs)], o), depth, counter)
    decreases fs, 1
  {
    hide Exec, Run, Step, ExecFor, ExecRepeat, Get, Set, Lookup, Target, Store;
    var k := ChunkLength(fs);
    TypedSplit(fs, FirstLength(fs), o);
    if k > 0 {
      first := SimpleGen(fs[..k], ctx, counter, Serialize);
      SimpleWrites(fs[..k], ctx, depth, counter, st, env, o);
    } else {
      first := ComplexGen(fs[0], ctx, depth, counter, Serialize);
      assert fs[..1] == [fs[0]] && fs[..1][0] == fs[0];
      ComplexWrites(fs[0], ctx, depth, counter, st, env, o);
      HeadEncodes(fs[0], o);
      HeadDamaged(Serialize, fs[0], o);
    }
  }

  lemma HeadEncodes(f: Field, o: Value)
    requires Get(o, f.name).Some?
    ensures EncodeFields([f], o) == EncodeField(f.base, f.kind, Get(o, f.name).value)
  {
    assert [f][1..] == [];
    assert EncodeFields([], o) == [];
  }

  lemma HeadDamaged(mode: Mode, f: Field, o: Value)
    requires Get(o, f.name).Some?
    ensures DamagedFields(mode, [f], o) == DamagedField(mode, f.base, f.kind, Get(o, f.name).value)
  {
    assert [f][1..] == [];
  }

  /** The code after the first chunk or complex field. */
  lemma {:induction false} RestWrites(whole: Gen, fs: seq<Field>, n: nat, ctx: Path, depth: nat, counter: nat, first: Gen,
                                      st: State, env: Env, o: Value)
    requires 1 <= n <= |fs| && TypedFields(fs, o, false)
    requires Anchored(st.vars, ctx, depth, counter) && Lookup(st.vars, ctx) == Some(o)
    requires first.counter >= counter
    requires Outcome(st, Exec(first.code, st, env), EncodeFields(fs[..n], o), DamagedFields(Serialize, fs[..n], o), depth, counter)
    requires whole == first.Then(ChunksGen(fs[n..], ctx, depth, first.counter, Serialize)) && Defined(whole, env)
    ensures Outcome(st, Exec(whole.code, st, env), EncodeFields(fs, o), DamagedFields(Serialize, fs, o), depth, counter)
    decreases fs, 1
  {
    hide Exec, Run, Step, ExecFor, ExecRepeat, Get, Set, Lookup, Target, Store, EncodeFields, TypedFields, DamagedFields, ChunksGen;
    var rest := fs[n..];
    var g := ChunksGen(rest, ctx, depth, first.counter, Serialize);
    TypedSplit(fs, n, o);
    if Exec(first.code, st, env).Some? {
      var st1 := Exec(first.code, st, env).value;
      LookupStable(st.vars, st1.vars, ctx, depth, counter);
      Monotone(st1.vars, ctx, depth, counter, depth, first.counter);
      ChunksWrite(rest, ctx, depth, first.counter, st1, env, o);
    }
    FollowedBy(first.code, g.code, st, env, EncodeFields(fs[..n], o), EncodeFields(rest, o),
               DamagedFields(Serialize, fs[..n], o), DamagedFields(Serialize, rest, o), depth, counter, first.counter);
    EncodeAppend(fs[..n], rest, o);
    DamageAppend(Serialize, fs[..n], rest, o);
    assert fs[..n] + rest == fs;
  }

  lemma FollowedBy(a: seq<Stmt>, b: seq<Stmt>, st: State, env: Env, bytesA: seq<Byte>, bytesB: seq<Byte>,
                   damagedA: bool, damagedB: bool, depth: nat, counter: nat, counter': nat)
    requires Outcome(st, Exec(a, st, env), bytesA, damagedA, depth, counter) && counter <= counter'
    requires Exec(a, st, env).Some? ==>
      Outcome(Exec(a, st, env).value, Exec(b, Exec(a, st, env).value, env), bytesB, damagedB, depth, counter')
    ensures Outcome(st, Exec(a + b, st, env), bytesA + bytesB, damagedA || damagedB, depth, counter)
  {
    ExecAppend(a, b, st, env);
    if Exec(a, st, env).Some? {
      var st1 := Exec(a, st, env).value;
      Weaken(st1, Exec(b, st1, env), bytesB, damagedB, depth, counter', depth, counter);
      Chain(st, st1, Exec(b, st1, env), bytesA, bytesB, damagedA, damagedB, depth, counter);
    }
  }

  lemma FieldsWrite(fs: seq<Field>, ctx: Path, depth: nat, counter: nat, st: State, env: Env, o: Value)
    requires Anchored(st.vars, ctx, depth, counter) && Lookup(st.vars, ctx) == Some(o)
    requires TypedFields(fs, o, false)
    requires Defined(FieldsGen(fs, ctx, depth, counter, Serialize), env)
    ensures Outcome(st, Exec(FieldsGen(fs, ctx, depth, counter, Serialize).code, st, env),
                    EncodeFields(fs, o), DamagedFields(Serialize, fs, o), depth, counter)
    decreases fs, 4
  {
    if fs == [] {
      ExecSingle(Pass, st, env);
    } else {
      ChunksWrite(fs, ctx, depth, counter, st, env, o);
    }
  }
}
