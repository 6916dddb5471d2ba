/**
 Where reading goes wrong: on the encoding of a message that holds a fixed-length array of
 numbers other than bytes whose declared length has two adjacent nines, the generated
 deserialize code raises.
 */
module DamagedReading {
  import opened Wrappers
  import opened StructFormat
  import opened Messages
  import opened PyCode
  import opened Genpy
  import opened Serialization
  import opened Deserialization

  lemma Raised(a: seq<Stmt>, b: seq<Stmt>, st: State, env: Env)
    requires Exec(a, st, env).None?
    ensures Exec(a + b, st, env).None?
  {
    ExecAppend(a, b, st, env);
  }

  lemma Narrower(w: nat, k: nat, n: nat)
    requires w > 0 && k < n
    ensures w * k < w * n
  {
  }

  /** Too few items for the bytes. */
  lemma UnpackRaises(pattern: string, c: char, k: nat, n: nat, p: Path, st: State, env: Env)
    requires IsCode(c) && k < n && Items(pattern) == Some(Repeat(Number(c), k))
    requires |Sliced(st, env.input)| == CalcSize(Repeat(Number(c), n))
    ensures Run(ReadStar(pattern, p), st, env).None?
  {
    RepeatSize(c, k);
    RepeatSize(c, n);
    Narrower(Width(c), k, n);
  }

  /** The slice is as long as the declared array, the compressed format is not. */
  lemma FixedArrayRaises(t: Simple, n: nat, p: Path, vs: seq<Value>, st: State, env: Env, counter: nat)
    requires |vs| == n && (forall i :: 0 <= i < |vs| ==> TypedBase(Prim(t), vs[i], true)) && AdjacentNines(Dec(n))
    requires HasInput(env.input, st.end, EncodeList(Prim(t), vs))
    ensures Exec(SimpleArrayGen(t, FixedLength(n), p, counter, Deserialize).code, st, env).None?
  {
    hide Exec, Run, Step, ExecFor, ExecRepeat, Get, Set, Lookup, Target, Store, Dec, Reduce, EncodeList, UnpackItems, Repeat, AdjacentNines, ReducedCount, Sliced;
    var pattern := Dec(n) + [Code(t)];
    ReducedCountedItems(n, Code(t));
    CountKeptIffNoAdjacentNines(n);
    UnpackList(t, vs);
    var read, fixups := ReadStar(Reduce(pattern), p), if t.Bool? then [MapBool(p)] else [];
    var amount := Const(CalcSizeOf(pattern));
    assert SimpleArrayGen(t, FixedLength(n), p, counter, Deserialize).code == [StartEnd, Advance(amount)] + ([read] + fixups);
    var st1 := Cursor(amount, EncodeList(Prim(t), vs), st, env, [read] + fixups);
    UnpackRaises(Reduce(pattern), Code(t), ReducedCount(n), n, p, st1, env);
    ExecSingle(read, st1, env);
    Raised([read], fixups, st1, env);
  }

  lemma {:induction false} ItemRaises(base: Base, depth: nat, counter: nat, v: Value, st: State, env: Env)
    requires base.Embedded? && ValidBase(base) && Defined(ItemGen(base, depth, counter, Deserialize), env)
    requires TypedBase(base, v, true) && DamagedBase(Deserialize, base, v)
    requires HasInput(env.input, st.end, EncodeBase(base, v))
    ensures Exec(ItemCode(base, depth, counter), st, env).None?
    decreases base, 0
  {
    hide Exec, Run, Step, ExecFor, ExecRepeat, Get, Set, Lookup, Target, Store;
    var item, fs := Path(Loop(depth), []), base.spec.fields;
    var o := Rec(DefaultFields(fs));
    var st1 := Constructed(fs, base.spec, depth, counter, st, env);
    ExecAppend([New(item, base.spec)], FieldsGen(fs, item, depth + 1, counter, Deserialize).code, st, env);
    ExecSingle(New(item, base.spec), st, env);
    SetAllCovers(o, fs, v);
    FieldsRaise(fs, item, depth + 1, counter, st1, env, o, v);
  }

  lemma {:induction false} RepeatRaises(base: Base, p: Path, depth: nat, counter: nat, done: seq<Value>, vs: seq<Value>, st: State, env: Env)
    requires base.Embedded? && ValidBase(base) && Defined(ItemGen(base, depth, counter, Deserialize), env)
    requires ListAhead(base, vs, env.input, st.end) && DamagedList(Deserialize, base, vs)
    requires p.attrs != [] && Anchored(st.vars, p, depth, counter) && Lookup(st.vars, p) == Some(List(done))
    ensures ExecRepeat(|vs|, ItemCode(base, depth, counter) + [Append(p, Loop(depth))], st, env).None?
    decreases base, 1, |vs|
  {
    hide *;
    NoneDamaged(base, vs);
    ListDamage(Deserialize, base, vs);
    ListHead(base, vs, env.input, st.end);
    var body := ItemCode(base, depth, counter) + [Append(p, Loop(depth))];
    if DamagedBase(Deserialize, base, vs[0]) {
      ItemRaises(base, depth, counter, vs[0], st, env);
      Raised(ItemCode(base, depth, counter), [Append(p, Loop(depth))], st, env);
      RepeatOnce(|vs|, body, st, env);
    } else {
      var st1 := RoundReads(base, p, depth, counter, done, vs, st, env);
      RepeatRaises(base, p, depth, counter, done + [vs[0]], vs[1..], st1, env);
      RepeatOnce(|vs|, body, st, env);
    }
  }

  lemma NoneDamaged(base: Base, vs: seq<Value>)
    requires DamagedList(Deserialize, base, vs)
    ensures vs != []
  {
  }

  lemma RepeatOnce(n: nat, body: seq<Stmt>, st: State, env: Env)
    requires n > 0
    ensures ExecRepeat(n, body, st, env) == match Exec(body, st, env) case Some(st1) => ExecRepeat(n - 1, body, st1, env) case None => None
  {
  }

  lemma {:induction false} LoopBodyRaises(base: Base, times: Amount, p: Path, depth: nat, counter: nat, vs: seq<Value>, st: State, env: Env)
    requires base.Embedded? && ValidBase(base) && Defined(ItemGen(base, depth, counter, Deserialize), env)
    requires ListAhead(base, vs, env.input, st.end) && DamagedList(Deserialize, base, vs) && AmountOf(times, st) == |vs|
    requires p.attrs != [] && Assignable(st.vars, p, depth, counter)
    ensures Exec([SetEmpty(p), ForRange(times, ItemCode(base, depth, counter) + [Append(p, Loop(depth))])], st, env).None?
    decreases base, 2
  {
    hide Exec, Run, Step, ExecFor, ExecRepeat, Get, Set, Lookup, Target, Store;
    var loop := ForRange(times, ItemCode(base, depth, counter) + [Append(p, Loop(depth))]);
    var st1 := RunSetEmpty(p, loop, st, env, depth, counter);
    RepeatRaises(base, p, depth, counter, [], vs, st1, env);
  }

  lemma {:induction false} LoopRaises(base: Base, kind: Kind, p: Path, depth: nat, counter: nat, v: Value, st: State, env: Env)
    requires base.Embedded? && !kind.Scalar? && ValidBase(base)
    requires Defined(LoopGen(base, kind, p, depth, counter, Deserialize), env)
    requires TypedField(base, kind, v, true) && DamagedField(Deserialize, base, kind, v)
    requires p.attrs != [] && Assignable(st.vars, p, depth, counter)
    requires HasInput(env.input, st.end, EncodeField(base, kind, v))
    ensures Exec(LoopGen(base, kind, p, depth, counter, Deserialize).code, st, env).None?
    decreases base, 3
  {
    hide Exec, Run, Step, ExecFor, ExecRepeat, Get, Set, Lookup, Target, Store;
    var loop := [SetEmpty(p), ForRange(Times(kind), ItemCode(base, depth, counter) + [Append(p, Loop(depth))])];
    ListField(base, kind, v, env.input, st.end);
    if kind.VarLength? {
      var st1 := LengthReads(p, false, |v.vs|, st, env, loop);
      LoopBodyRaises(base, Times(kind), p, depth, counter, v.vs, st1, env);
    } else {
      assert [] + loop == loop;
      LoopBodyRaises(base, Times(kind), p, depth, counter, v.vs, st, env);
    }
  }

  lemma {:induction false} ComplexRaises(f: Field, ctx: Path, depth: nat, counter: nat, st: State, env: Env, o: Value, v: Value)
    requires !IsSimple(f) && EmbeddedValid([f])
    requires Anchored(st.vars, ctx, depth, counter) && Lookup(st.vars, ctx) == Some(o) && Settable([f], o)
    requires TypedField(f.base, f.kind, v, true) && DamagedField(Deserialize, f.base, f.kind, v)
    requires HasInput(env.input, st.end, EncodeField(f.base, f.kind, v))
    requires Defined(ComplexGen(f, ctx, depth, counter, Deserialize), env)
    ensures Exec(ComplexGen(f, ctx, depth, counter, Deserialize).code, st, env).None?
    decreases f, 1
  {
    hide Exec, Run, Step, ExecFor, ExecRepeat, Get, Set, Lookup, Target, Store;
    var p := ctx.Dot(f.name);
    assert [f][0] == f;
    LookupDot(st.vars, ctx, f.name);
    assert Assignable(st.vars, p, depth, counter);
    if f.kind.Scalar? {
      EmbeddedRaises(f, p, depth, counter, st, env, Get(o, f.name).value, v);
    } else if f.base.Prim? {
      assert [] + EncodeList(f.base, v.vs) == EncodeList(f.base, v.vs);
      FixedArrayRaises(f.base.t, f.kind.n, p, v.vs, st, env, counter);
    } else {
      OnlyMessagesDamaged(f, v);
      LoopRaises(f.base, f.kind, p, depth, counter, v, st, env);
    }
  }

  lemma {:induction false} StringsUndamaged(vs: seq<Value>)
    ensures !DamagedList(Deserialize, Text, vs)
  {
    if vs != [] {
      StringsUndamaged(vs[1..]);
    }
  }

  lemma OnlyMessagesDamaged(f: Field, v: Value)
    requires DamagedField(Deserialize, f.base, f.kind, v) && !f.kind.Scalar? && !f.base.Prim?
    ensures f.base.Embedded?
  {
    if f.base.Text? && v.List? {
      StringsUndamaged(v.vs);
    }
  }

  lemma {:induction false} EmbeddedRaises(f: Field, p: Path, depth: nat, counter: nat, st: State, env: Env, sub: Value, v: Value)
    requires IsEmbedded(f) && ValidFields(f.base.spec.fields)
    requires Anchored(st.vars, p, depth, counter) && Lookup(st.vars, p) == Some(sub) && Shaped(f.base.spec.fields, sub)
    requires TypedBase(f.base, v, true) && DamagedBase(Deserialize, f.base, v)
    requires HasInput(env.input, st.end, EncodeBase(f.base, v))
    requires Defined(FieldsGen(f.base.spec.fields, Path(Ctx(counter + 1), []), depth + 1, counter + 1, Deserialize), env)
    ensures
      var code := FieldsGen(f.base.spec.fields, Path(Ctx(counter + 1), []), depth + 1, counter + 1, Deserialize).code;
      Exec([Assign(Ctx(counter + 1), p)] + code, st, env).None?
    decreases f, 0
  {
    hide Exec, Run, Step, ExecFor, ExecRepeat, Get, Set, Lookup, Target, Store;
    var fs, q := f.base.spec.fields, Path(Ctx(counter + 1), []);
    var st1 := AssignCtx(p, st, env, sub, depth, counter, FieldsGen(fs, q, depth + 1, counter + 1, Deserialize).code);
    SetAllCovers(sub, fs, v);
    FieldsRaise(fs, q, depth + 1, counter + 1, st1, env, sub, v);
  }

  /** The first chunk or field raises, or it is read and the rest raises. */
  lemma {:induction false} FieldsRaise(fs: seq<Field>, ctx: Path, depth: nat, counter: nat, st: State, env: Env, o: Value, v: Value)
    requires EmbeddedValid(fs) && Settable(fs, o) && AllApart(fs)
    requires Anchored(st.vars, ctx, depth, counter) && Lookup(st.vars, ctx) == Some(o)
    requires TypedFields(fs, v, true) && DamagedFields(Deserialize, fs, v)
    requires HasInput(env.input, st.end, EncodeFields(fs, v))
    requires Defined(ChunksGen(fs, ctx, depth, counter, Deserialize), env)
    ensures Exec(ChunksGen(fs, ctx, depth, counter, Deserialize).code, st, env).None?
    decreases fs, 1
  {
    hide Exec, Run, Step, ExecFor, ExecRepeat, Get, Set, Lookup, Target, Store;
    var n := FirstLength(fs);
    ReadingSplit(fs, n, o, v, env.input, st.end);
    if ChunkLength(fs) == 0 && DamagedFields(Deserialize, fs[..1], v) {
      var first := ComplexGen(fs[0], ctx, depth, counter, Deserialize);
      assert fs[..1] == [fs[0]];
      OneRaises(fs[0], ctx, depth, counter, st, env, o, v);
      Raised(first.code, ChunksGen(fs[1..], ctx, depth, first.counter, Deserialize).code, st, env);
    } else {
      FirstUndamaged(fs, v);
      RestRaises(fs, ctx, depth, counter, st, env, o, v);
    }
  }

  lemma {:induction false} SimpleUndamaged(fs: seq<Field>, v: Value)
    requires forall i :: 0 <= i < |fs| ==> IsSimple(fs[i])
    ensures !DamagedFields(Deserialize, fs, v)
  {
    if fs != [] {
      SimpleUndamaged(fs[1..], v);
      if Get(v, fs[0].name).Some? {
        SimpleEncodes(Deserialize, fs[0], v, Get(v, fs[0].name).value);
      }
    }
  }

  lemma FirstUndamaged(fs: seq<Field>, v: Value)
    requires fs != [] && (ChunkLength(fs) == 0 ==> !DamagedFields(Deserialize, fs[..1], v))
    ensures !DamagedFields(Deserialize, fs[..FirstLength(fs)], v)
  {
    if ChunkLength(fs) > 0 {
      SimpleUndamaged(fs[..ChunkLength(fs)], v);
    }
  }

  lemma {:induction false} OneRaises(f: Field, ctx: Path, depth: nat, counter: nat, st: State, env: Env, o: Value, v: Value)
    requires !IsSimple(f) && EmbeddedValid([f]) && Settable([f], o)
    requires Anchored(st.vars, ctx, depth, counter) && Lookup(st.vars, ctx) == Some(o)
    requires TypedFields([f], v, true) && DamagedFields(Deserialize, [f], v)
    requires HasInput(env.input, st.end, EncodeFields([f], v))
    requires Defined(ComplexGen(f, ctx, depth, counter, Deserialize), env)
    ensures Exec(ComplexGen(f, ctx, depth, counter, Deserialize).code, st, env).None?
    decreases f, 2
  {
    hide Exec, Run, Step, ExecFor, ExecRepeat, Get, Set, Lookup, Target, Store;
    assert [f][0] == f;
    HeadEncodes(f, v);
    HeadDamaged(Deserialize, f, v);
    ComplexRaises(f, ctx, depth, counter, st, env, o, Get(v, f.name).value);
  }

  lemma {:induction false} RestRaises(fs: seq<Field>, ctx: Path, depth: nat, counter: nat, st: State, env: Env, o: Value, v: Value)
    requires fs != [] && EmbeddedValid(fs) && Settable(fs, o) && AllApart(fs)
    requires Anchored(st.vars, ctx, depth, counter) && Lookup(st.vars, ctx) == Some(o)
    requires TypedFields(fs, v, true) && DamagedFields(Deserialize, fs, v) && !DamagedFields(Deserialize, fs[..FirstLength(fs)], v)
    requires HasInput(env.input, st.end, EncodeFields(fs, v))
    requires Defined(ChunksGen(fs, ctx, depth, counter, Deserialize), env)
    ensures Exec(ChunksGen(fs, ctx, depth, counter, Deserialize).code, st, env).None?
    decreases fs, 0
  {
    hide Exec, Run, Step, ExecFor, ExecRepeat, Get, Set, Lookup, Target, Store, EncodeFields, TypedFields, DamagedFields, ChunksGen, SetAll, Settable, AllApart, EmbeddedValid;
    var n := FirstLength(fs);
    var rest, o1 := fs[n..], SetAll(o, fs[..n], v);
    ReadingSplit(fs, n, o, v, env.input, st.end);
    var first := FirstReads(fs, ctx, depth, counter, st, env, o, v);
    var g := ChunksGen(rest, ctx, depth, first.counter, Deserialize);
    var st1 := Exec(first.code, st, env).value;
    UpdatedLookup(st.vars, st1.vars, ctx, o1, depth, counter);
    Monotone(st1.vars, ctx, depth, counter, depth, first.counter);
    FieldsRaise(rest, ctx, depth, first.counter, st1, env, o1, v);
    ExecAppend(first.code, g.code, st, env);
  }
}
