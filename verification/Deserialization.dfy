/**
 Running the generated deserialize code on an encoded message stores the message's fields,
 one after the other, into the object the code works on, and consumes exactly its bytes.
 */
module Deserialization {
  import opened Wrappers
  import opened Sequences
  import opened StructFormat
  import opened Messages
  import opened Attributes
  import opened PyCode
  import opened Genpy
  import opened Serialization

  // ---------------------------------------------------------------- objects that can take a message

  /** An object whose slots are the fields and whose embedded messages exist. */
  predicate Shaped(fs: seq<Field>, o: Value)
    decreases fs
  {
    && o.Rec? && o.m.Keys == Names(fs)
    && forall i :: 0 <= i < |fs| && IsEmbedded(fs[i]) ==>
         Get(o, fs[i].name).Some? && Shaped(fs[i].base.spec.fields, Get(o, fs[i].name).value)
  }

  predicate Settable(fs: seq<Field>, o: Value)
  {
    forall i :: 0 <= i < |fs| ==>
      && fs[i].name != [] && Get(o, fs[i].name).Some?
      && (IsEmbedded(fs[i]) ==> Shaped(fs[i].base.spec.fields, Get(o, fs[i].name).value))
  }

  predicate AllApart(fs: seq<Field>)
  {
    forall i, j :: 0 <= i < j < |fs| ==> Apart(fs[i].name, fs[j].name)
  }

  predicate EmbeddedValid(fs: seq<Field>)
  {
    forall i :: 0 <= i < |fs| && fs[i].base.Embedded? ==> ValidFields(fs[i].base.spec.fields)
  }

  function FieldOf(v: Value, name: seq<string>): Value
  {
    match Get(v, name) case Some(x) => x case None => NoneValue
  }

  function Assigned(o: Value, name: seq<string>, x: Value): Value
  {
    match Set(o, name, x) case Some(o') => o' case None => o
  }

  /** The object after all fields have been assigned from `v`. */
  function SetAll(o: Value, fs: seq<Field>, v: Value): Value
    decreases fs
  {
    if fs == [] then o else SetAll(Assigned(o, fs[0].name, FieldOf(v, fs[0].name)), fs[1..], v)
  }

  lemma SettableTail(fs: seq<Field>, o: Value, x: Value)
    requires fs != [] && Settable(fs, o) && AllApart(fs)
    ensures Set(o, fs[0].name, x).Some?
    ensures Settable(fs[1..], Assigned(o, fs[0].name, x)) && AllApart(fs[1..])
  {
    GetAfterSet(o, fs[0].name, x);
    forall i | 0 <= i < |fs[1..]|
      ensures Get(Assigned(o, fs[0].name, x), fs[1..][i].name) == Get(o, fs[i + 1].name)
    {
      assert Apart(fs[0].name, fs[i + 1].name);
      SetElsewhere(o, fs[0].name, fs[i + 1].name, x);
    }
  }

  lemma {:induction false} SetAllElsewhere(o: Value, fs: seq<Field>, v: Value, b: seq<string>)
    requires Settable(fs, o) && AllApart(fs)
    requires forall i :: 0 <= i < |fs| ==> Apart(fs[i].name, b)
    ensures Get(SetAll(o, fs, v), b) == Get(o, b)
    decreases fs
  {
    if fs != [] {
      var x := FieldOf(v, fs[0].name);
      SettableTail(fs, o, x);
      SetElsewhere(o, fs[0].name, b, x);
      SetAllElsewhere(Assigned(o, fs[0].name, x), fs[1..], v, b);
    }
  }

  lemma {:induction false} SetAllGets(o: Value, fs: seq<Field>, v: Value)
    requires Settable(fs, o) && AllApart(fs)
    ensures forall i :: 0 <= i < |fs| ==> Get(SetAll(o, fs, v), fs[i].name) == Some(FieldOf(v, fs[i].name))
    decreases fs
  {
    if fs != [] {
      var x := FieldOf(v, fs[0].name);
      SettableTail(fs, o, x);
      var o1 := Assigned(o, fs[0].name, x);
      GetAfterSet(o, fs[0].name, x);
      SetAllGets(o1, fs[1..], v);
      forall i | 0 <= i < |fs[1..]| ensures Apart(fs[1..][i].name, fs[0].name) {
        assert Apart(fs[0].name, fs[i + 1].name);
      }
      SetAllElsewhere(o1, fs[1..], v, fs[0].name);
    }
  }

  lemma {:induction false} SetAllAppend(o: Value, a: seq<Field>, b: seq<Field>, v: Value)
    ensures SetAll(o, a + b, v) == SetAll(SetAll(o, a, v), b, v)
    decreases a
  {
    if a == [] {
      assert a + b == b;
    } else {
      assert (a + b)[1..] == a[1..] + b;
      SetAllAppend(Assigned(o, a[0].name, FieldOf(v, a[0].name)), a[1..], b, v);
    }
  }

  /** Assigning every slot makes the object equal to the message. */
  lemma SetAllCovers(o: Value, fs: seq<Field>, v: Value)
    requires Shaped(fs, o) && ValidFields(fs)
    requires v.Rec? && v.m.Keys == Names(fs)
    ensures Settable(fs, o) && AllApart(fs)
    ensures SetAll(o, fs, v) == v
  {
    ShapedIsSettable(fs, o);
    SetAllGets(o, fs, v);
    SetAllKeys(o, fs, v);
    var r := SetAll(o, fs, v);
    forall s | s in r.m.Keys ensures r.m[s] == v.m[s] {
      SlotCovered(r, fs, v, s);
    }
    assert r.m == v.m;
  }

  lemma SlotCovered(r: Value, fs: seq<Field>, v: Value, s: string)
    requires forall i :: 0 <= i < |fs| ==> |fs[i].name| == 1
    requires forall i :: 0 <= i < |fs| ==> Get(r, fs[i].name) == Some(FieldOf(v, fs[i].name))
    requires r.Rec? && v.Rec? && s in r.m && s in v.m && s in Names(fs)
    ensures r.m[s] == v.m[s]
  {
    var i :| 0 <= i < |fs| && s in fs[i].name;
    assert fs[i].name == [s];
    assert Get(r, [s]) == Some(FieldOf(v, [s]));
    GetOne(r, s);
    GetOne(v, s);
  }

  lemma GetOne(v: Value, s: string)
    ensures Get(v, [s]) == if v.Rec? && s in v.m then Some(v.m[s]) else None
  {
    assert [s][1..] == [];
  }

  lemma ShapedIsSettable(fs: seq<Field>, o: Value)
    requires Shaped(fs, o) && ValidFields(fs)
    ensures Settable(fs, o) && AllApart(fs)
  {
    forall i | 0 <= i < |fs| ensures fs[i].name != [] && Get(o, fs[i].name).Some? {
      var s := fs[i].name[0];
      assert fs[i].name == [s] && s in fs[i].name;
      assert s in Names(fs);
      GetOne(o, s);
    }
  }

  lemma {:induction false} SetAllKeys(o: Value, fs: seq<Field>, v: Value)
    requires o.Rec? && forall i :: 0 <= i < |fs| ==> fs[i].name != []
    ensures SetAll(o, fs, v).Rec? && SetAll(o, fs, v).m.Keys == o.m.Keys
    decreases fs
  {
    if fs != [] {
      SetAllKeys(Assigned(o, fs[0].name, FieldOf(v, fs[0].name)), fs[1..], v);
    }
  }

  // ---------------------------------------------------------------- stores

  function StoreAt(vars: map<Var, Slot>, t: Path, x: Value): map<Var, Slot>
    requires t.root in vars && vars[t.root].Own?
  {
    vars[t.root := Own(Assigned(vars[t.root].v, t.attrs, x))]
  }

  predicate Holds(vars: map<Var, Slot>, t: Path)
  {
    t.root in vars && vars[t.root].Own? && Get(vars[t.root].v, t.attrs).Some?
  }

  lemma StoreAtTwice(vars: map<Var, Slot>, t: Path, x: Value, y: Value)
    requires Holds(vars, t)
    ensures Holds(StoreAt(vars, t, x), t)
    ensures StoreAt(StoreAt(vars, t, x), t, y) == StoreAt(vars, t, y)
  {
    var v := vars[t.root].v;
    GetAfterSet(v, t.attrs, x);
    GetAfterSet(v, t.attrs, y);
    SetAfterSet(v, t.attrs, x, y);
    GetAfterSet(Assigned(v, t.attrs, x), t.attrs, y);
  }

  /** Storing through a path leaves the path denoting the stored value. */
  lemma LookupStored(vars: map<Var, Slot>, p: Path, x: Value)
    requires Lookup(vars, p).Some?
    ensures var t := Target(vars, p);
      var vars' := StoreAt(vars, t, x);
      Holds(vars, t) && Target(vars', p) == t && Lookup(vars', p) == Some(x)
  {
    var t := Target(vars, p);
    GetAfterSet(vars[t.root].v, t.attrs, x);
  }

  lemma StoreDot(vars: map<Var, Slot>, base: Path, name: seq<string>, o: Value, x: Value)
    requires Lookup(vars, base) == Some(o) && name != [] && Get(o, name).Some?
    ensures Store(vars, base.Dot(name), x) == Some(StoreAt(vars, Target(vars, base), Assigned(o, name, x)))
  {
    var t := Target(vars, base);
    SetThrough(vars[t.root].v, t.attrs, name, x);
    GetAfterSet(o, name, x);
    GetAfterSet(vars[t.root].v, t.attrs, Assigned(o, name, x));
    TargetDot(vars, base, name);
  }

  lemma TargetDot(vars: map<Var, Slot>, base: Path, name: seq<string>)
    ensures Target(vars, base.Dot(name)) == Target(vars, base).Dot(name)
  {
    if base.root in vars && vars[base.root].Alias? {
      Associative(vars[base.root].p.attrs, base.attrs, name);
    }
  }

  lemma {:induction false} StoreFields(vars: map<Var, Slot>, base: Path, fs: seq<Field>, o: Value, v: Value)
    requires Lookup(vars, base) == Some(o) && Settable(fs, o) && AllApart(fs)
    ensures StoreAll(vars, FieldPaths(base, fs), Values(fs, v)) == Some(StoreAt(vars, Target(vars, base), SetAll(o, fs, v)))
    decreases fs
  {
    var t := Target(vars, base);
    if fs == [] {
      SetSame(vars[t.root].v, t.attrs);
      assert StoreAt(vars, t, o) == vars;
    } else {
      var x := FieldOf(v, fs[0].name);
      var o1 := Assigned(o, fs[0].name, x);
      StoreDot(vars, base, fs[0].name, o, x);
      SettableTail(fs, o, x);
      LookupStored(vars, base, o1);
      StoreFields(StoreAt(vars, t, o1), base, fs[1..], o1, v);
      StoreAtTwice(vars, t, o1, SetAll(o1, fs[1..], v));
      assert FieldPaths(base, fs) == [base.Dot(fs[0].name)] + FieldPaths(base, fs[1..]);
      assert Values(fs, v) == [x] + Values(fs[1..], v);
    }
  }

  // ---------------------------------------------------------------- outcomes

  predicate HasInput(input: seq<Byte>, pos: nat, bytes: seq<Byte>)
  {
    pos + |bytes| <= |input| && input[pos..pos + |bytes|] == bytes
  }

  /** `vars'` is `vars` with `x` stored at `t`; variables the code owns may differ. */
  predicate Updated(vars: map<Var, Slot>, vars': map<Var, Slot>, t: Path, x: Value, depth: nat, counter: nat)
  {
    && Holds(vars, t)
    && t.root in vars' && vars'[t.root] == Own(Assigned(vars[t.root].v, t.attrs, x))
    && forall u <- vars :: Stable(u, depth, counter) && u != t.root ==> u in vars' && vars'[u] == vars[u]
  }

  /** The result of running code that reads `size` bytes and stores `x` at `t`. */
  predicate ReadOutcome(st: State, r: Option<State>, size: nat, t: Path, x: Value, depth: nat, counter: nat)
  {
    r.Some? && r.value.end == st.end + size && Updated(st.vars, r.value.vars, t, x, depth, counter)
  }

  lemma UpdatedLookup(vars: map<Var, Slot>, vars': map<Var, Slot>, p: Path, x: Value, depth: nat, counter: nat)
    requires Anchored(vars, p, depth, counter) && Updated(vars, vars', Target(vars, p), x, depth, counter)
    ensures Anchored(vars', p, depth, counter) && Target(vars', p) == Target(vars, p) && Lookup(vars', p) == Some(x)
  {
    var t := Target(vars, p);
    GetAfterSet(vars[t.root].v, t.attrs, x);
  }

  lemma UpdatedTwice(v0: map<Var, Slot>, v1: map<Var, Slot>, v2: map<Var, Slot>, t: Path, x: Value, y: Value,
                     depth: nat, counter: nat)
    requires Updated(v0, v1, t, x, depth, counter) && Updated(v1, v2, t, y, depth, counter)
    ensures Updated(v0, v2, t, y, depth, counter)
  {
    StoreAtTwice(v0, t, x, y);
    assert StoreAt(StoreAt(v0, t, x), t, y)[t.root] == StoreAt(v0, t, y)[t.root];
  }

  lemma UpdatedWeaker(vars: map<Var, Slot>, vars': map<Var, Slot>, t: Path, x: Value,
                      depth: nat, counter: nat, depth': nat, counter': nat)
    requires Updated(vars, vars', t, x, depth, counter) && depth' <= depth && counter' <= counter
    ensures Updated(vars, vars', t, x, depth', counter')
  {
  }

  lemma InputSplit(input: seq<Byte>, pos: nat, a: seq<Byte>, b: seq<Byte>)
    requires HasInput(input, pos, a + b)
    ensures HasInput(input, pos, a) && HasInput(input, pos + |a|, b)
  {
    assert input[pos..pos + |a|] == (a + b)[..|a|];
    assert input[pos + |a|..pos + |a| + |b|] == (a + b)[|a|..];
  }

  /** `start = end; end += amount` */
  lemma Cursor(amount: Amount, bytes: seq<Byte>, st: State, env: Env, rest: seq<Stmt>) returns (st': State)
    requires AmountOf(amount, st) == |bytes| && HasInput(env.input, st.end, bytes)
    ensures st' == st.(start := st.end, end := st.end + |bytes|)
    ensures Exec([StartEnd, Advance(amount)] + rest, st, env) == Exec(rest, st', env)
    ensures Sliced(st', env.input) == bytes
  {
    var st1 := st.(start := st.end);
    st' := st1.(end := st.end + |bytes|);
    assert Run(StartEnd, st, env) == Some(st1);
    assert AmountOf(amount, st1) == AmountOf(amount, st);
    assert Run(Advance(amount), st1, env) == Some(st');
    ExecTwo(StartEnd, Advance(amount), st, st1, env);
    ExecAppend([StartEnd, Advance(amount)], rest, st, env);
  }

  // ---------------------------------------------------------------- chunks of simple fields

  lemma UnpackPrim(t: Simple, v: Value)
    requires TypedBase(Prim(t), v, true)
    ensures |EncodeBase(Prim(t), v)| == Width(Code(t))
    ensures Num(NumOf(Code(t), EncodeBase(Prim(t), v))) == v
  {
    NumRoundTrip(Code(t), v.n);
  }

  lemma UnpackCons(c: char, head: seq<Byte>, v: Value, items: seq<Item>, tail: seq<Byte>, vs: seq<Value>)
    requires |head| == Width(c) && Num(NumOf(c, head)) == v
    requires |tail| == CalcSize(items) && UnpackItems(items, tail) == Some(vs)
    ensures CalcSize([Number(c)] + items) == |head + tail|
    ensures UnpackItems([Number(c)] + items, head + tail) == Some([v] + vs)
  {
    var all := [Number(c)] + items;
    assert all[1..] == items && ItemSize(all[0]) == Width(c);
    assert (head + tail)[..Width(c)] == head && (head + tail)[Width(c)..] == tail;
  }

  lemma {:induction false} UnpackFields(fs: seq<Field>, v: Value)
    requires forall i :: 0 <= i < |fs| ==> IsSimple(fs[i])
    requires TypedFields(fs, v, true)
    ensures CalcSize(Numbers(StructPattern(fs))) == |EncodeFields(fs, v)|
    ensures UnpackItems(Numbers(StructPattern(fs)), EncodeFields(fs, v)) == Some(Values(fs, v))
  {
    if fs != [] {
      StrictTail(fs, v);
      var x := Get(v, fs[0].name).value;
      var t := fs[0].base.t;
      UnpackFields(fs[1..], v);
      assert TypedBase(fs[0].base, x, true);
      UnpackPrim(t, x);
      SimpleEncodes(Deserialize, fs[0], v, x);
      PatternCons(fs, v);
      UnpackCons(Code(t), EncodeBase(Prim(t), x), x, Numbers(StructPattern(fs[1..])), EncodeFields(fs[1..], v), Values(fs[1..], v));
    }
  }

  lemma StrictTail(fs: seq<Field>, v: Value)
    requires fs != [] && TypedFields(fs, v, true)
    ensures Get(v, fs[0].name).Some? && TypedField(fs[0].base, fs[0].kind, Get(v, fs[0].name).value, true)
    ensures TypedFields(fs[1..], v, true)
  {
    assert forall i :: 0 <= i < |fs[1..]| ==> fs[1..][i] == fs[i + 1];
  }

  /** The bool conversions find values that are already 0 or 1. */
  lemma {:induction false} FixupsKeep(ctx: Path, fs: seq<Field>, st: State, env: Env, o: Value, v: Value)
    requires forall i :: 0 <= i < |fs| ==> IsSimple(fs[i]) && fs[i].name != []
    requires Lookup(st.vars, ctx) == Some(o)
    requires forall i :: 0 <= i < |fs| ==> Get(o, fs[i].name) == Get(v, fs[i].name)
    requires TypedFields(fs, v, true)
    ensures Exec(BoolFixups(ctx, fs), st, env) == Some(st)
    decreases fs
  {
    if fs != [] {
      StrictTail(fs, v);
      assert forall i :: 0 <= i < |fs[1..]| ==> fs[1..][i] == fs[i + 1];
      FixupsKeep(ctx, fs[1..], st, env, o, v);
      if fs[0].base == Prim(Bool) {
        FixupKeeps(ctx, fs[0], st, env, o, Get(v, fs[0].name).value);
        ExecAppend([ToBool(ctx.Dot(fs[0].name))], BoolFixups(ctx, fs[1..]), st, env);
        ExecSingle(ToBool(ctx.Dot(fs[0].name)), st, env);
      } else {
        assert [] + BoolFixups(ctx, fs[1..]) == BoolFixups(ctx, fs[1..]);
      }
    }
  }

  lemma FixupKeeps(ctx: Path, f: Field, st: State, env: Env, o: Value, x: Value)
    requires f.base == Prim(Bool) && IsSimple(f) && f.name != []
    requires Lookup(st.vars, ctx) == Some(o) && Get(o, f.name) == Some(x)
    requires TypedField(f.base, f.kind, x, true)
    ensures Run(ToBool(ctx.Dot(f.name)), st, env) == Some(st)
  {
    assert TypedBase(f.base, x, true);
    assert Truth(x) == Some(x);
    LookupDot(st.vars, ctx, f.name);
    StoreDot(st.vars, ctx, f.name, o, x);
    SetSame(o, f.name);
    var t := Target(st.vars, ctx);
    SetSame(st.vars[t.root].v, t.attrs);
    assert StoreAt(st.vars, t, o) == st.vars;
  }

  lemma RunReadStruct(fs: seq<Field>, base: Path, st: State, env: Env, o: Value, v: Value)
    requires forall i :: 0 <= i < |fs| ==> IsSimple(fs[i])
    requires Lookup(st.vars, base) == Some(o) && Settable(fs, o) && AllApart(fs)
    requires TypedFields(fs, v, true) && Sliced(st, env.input) == EncodeFields(fs, v)
    requires Reduce(StructPattern(fs)) in env.structs
    ensures Run(ReadStruct(Reduce(StructPattern(fs)), FieldPaths(base, fs)), st, env)
            == Some(st.(vars := StoreAt(st.vars, Target(st.vars, base), SetAll(o, fs, v))))
  {
    ReduceIsLossless(StructPattern(fs));
    UnpackFields(fs, v);
    StoreFields(st.vars, base, fs, o, v);
    var vars' := StoreAt(st.vars, Target(st.vars, base), SetAll(o, fs, v));
    RunUnpack(Reduce(StructPattern(fs)), Numbers(StructPattern(fs)), FieldPaths(base, fs), Values(fs, v), vars', st, env);
  }

  lemma RunUnpack(pattern: string, items: seq<Item>, ps: seq<Path>, vs: seq<Value>, vars': map<Var, Slot>, st: State, env: Env)
    requires pattern in env.structs && Items(pattern) == Some(items)
    requires UnpackItems(items, Sliced(st, env.input)) == Some(vs)
    requires StoreAll(st.vars, ps, vs) == Some(vars')
    ensures Run(ReadStruct(pattern, ps), st, env) == Some(st.(vars := vars'))
  {
    hide Items, UnpackItems, Sliced, StoreAll, Exec;
  }

  lemma RunUnpackList(pattern: string, items: seq<Item>, p: Path, vs: seq<Value>, st: State, env: Env)
    requires pattern in env.structs && Items(pattern) == Some(items)
    requires UnpackItems(items, Sliced(st, env.input)) == Some(vs)
    ensures Run(ReadStar(pattern, p), st, env) == Bound(st, Store(st.vars, p, List(vs)))
  {
    hide Items, UnpackItems, Sliced, Store, Exec;
  }

  lemma CodeOfChunk(fs: seq<Field>, base: Path, ctx: Path)
    requires forall i :: 0 <= i < |fs| ==> IsSimple(fs[i])
    ensures var pattern := Reduce(StructPattern(fs));
      ReadChunkCode(fs, base, ctx)
      == [StartEnd, Advance(Const(CalcSizeOf(pattern)))] + ([ReadStruct(pattern, FieldPaths(base, fs))] + BoolFixups(ctx, fs))
  {
  }

  /** Advancing over a chunk and unpacking it. */
  lemma ChunkReads(fs: seq<Field>, base: Path, ctx: Path, depth: nat, counter: nat, st: State, env: Env, o: Value, v: Value)
    requires forall i :: 0 <= i < |fs| ==> IsSimple(fs[i])
    requires Anchored(st.vars, ctx, depth, counter) && Lookup(st.vars, ctx) == Some(o)
    requires Lookup(st.vars, base) == Some(o) && Target(st.vars, base) == Target(st.vars, ctx)
    requires Settable(fs, o) && AllApart(fs) && TypedFields(fs, v, true)
    requires HasInput(env.input, st.end, EncodeFields(fs, v))
    requires Reduce(StructPattern(fs)) in env.structs
    ensures ReadOutcome(st, Exec(ReadChunkCode(fs, base, ctx), st, env), |EncodeFields(fs, v)|,
                        Target(st.vars, ctx), SetAll(o, fs, v), depth, counter)
  {
    hide Exec, Run, Step, ExecFor, ExecRepeat, Get, Set, Sliced, Reduce, EncodeFields, Settable, AllApart, BoolFixups;
    var pattern := Reduce(StructPattern(fs));
    var amount := Const(CalcSizeOf(pattern));
    var fixups := BoolFixups(ctx, fs);
    PatternSize(fs, v);
    var rest := [ReadStruct(pattern, FieldPaths(base, fs))] + fixups;
    var st' := Cursor(amount, EncodeFields(fs, v), st, env, rest);
    CodeOfChunk(fs, base, ctx);
    ReadChunk(fs, base, ctx, st', env, o, v, fixups);
  }

  lemma SimpleReads(fs: seq<Field>, ctx: Path, depth: nat, counter: nat, st: State, env: Env, o: Value, v: Value)
    requires fs != [] && forall i :: 0 <= i < |fs| ==> IsSimple(fs[i])
    requires Anchored(st.vars, ctx, depth, counter) && Lookup(st.vars, ctx) == Some(o)
    requires Settable(fs, o) && AllApart(fs) && TypedFields(fs, v, true)
    requires HasInput(env.input, st.end, EncodeFields(fs, v))
    requires forall p <- SimpleGen(fs, ctx, counter, Deserialize).patterns :: p in env.structs
    ensures ReadOutcome(st, Exec(SimpleGen(fs, ctx, counter, Deserialize).code, st, env), |EncodeFields(fs, v)|,
                        Target(st.vars, ctx), SetAll(o, fs, v), depth, counter)
  {
    hide Exec, Run, Step, ExecFor, ExecRepeat;
    assert Reduce(StructPattern(fs)) == SimpleGen(fs, ctx, counter, Deserialize).patterns[0];
    var base := if |fs| > 1 then Path(X, []) else ctx;
    assert Get(o, fs[0].name).Some? && fs[0].name != [];
    var st1 := ObjectPrologue(ctx, |fs| > 1, st, env, o, depth, counter, ReadChunkCode(fs, base, ctx));
    ChunkReads(fs, base, ctx, depth, counter, st1, env, o, v);
  }

  lemma PatternSize(fs: seq<Field>, v: Value)
    requires forall i :: 0 <= i < |fs| ==> IsSimple(fs[i])
    requires TypedFields(fs, v, true)
    ensures CalcSizeOf(Reduce(StructPattern(fs))) == |EncodeFields(fs, v)|
  {
    ReduceIsLossless(StructPattern(fs));
    UnpackFields(fs, v);
  }

  /** After `_x = p` for an object, `_x` is an alias of the object itself. */
  lemma ObjectPrologue(p: Path, inContext: bool, st: State, env: Env, v: Value, depth: nat, counter: nat, body: seq<Stmt>)
    returns (st': State)
    requires Anchored(st.vars, p, depth, counter) && Lookup(st.vars, p) == Some(v) && v.Rec?
    ensures st' == st.(vars := st'.vars) && SameStable(st.vars, st'.vars, depth, counter)
    ensures Exec((if inContext then [Assign(X, p)] else []) + body, st, env) == Exec(body, st', env)
    ensures var q := if inContext then Path(X, []) else p;
      Target(st'.vars, q) == Target(st.vars, p) && Lookup(st'.vars, q) == Some(v)
    ensures Anchored(st'.vars, p, depth, counter)
    ensures Target(st'.vars, p) == Target(st.vars, p) && Lookup(st'.vars, p) == Some(v)
  {
    var q;
    q, st' := Prologue(p, inContext, st, env, v, depth, counter, body);
    if inContext {
      var q0, st0 := Prologue(p, inContext, st, env, v, depth, counter, []);
      var t := Target(st.vars, p);
      var st1 := st.(vars := st.vars[X := Alias(t)]);
      assert Run(Assign(X, p), st, env) == Some(st1);
      ExecSingle(Assign(X, p), st, env);
      ExecAppend([Assign(X, p)], body, st, env);
      st' := st1;
      assert t.attrs + [] == t.attrs;
    }
  }

  /** Unpacking a chunk and converting its bools. */
  lemma ReadChunk(fs: seq<Field>, base: Path, ctx: Path, st: State, env: Env, o: Value, v: Value, fixups: seq<Stmt>)
    requires forall i :: 0 <= i < |fs| ==> IsSimple(fs[i])
    requires Lookup(st.vars, base) == Some(o) && Lookup(st.vars, ctx) == Some(o)
    requires Target(st.vars, base) == Target(st.vars, ctx)
    requires Settable(fs, o) && AllApart(fs) && TypedFields(fs, v, true)
    requires Sliced(st, env.input) == EncodeFields(fs, v)
    requires Reduce(StructPattern(fs)) in env.structs
    requires fixups == BoolFixups(ctx, fs)
    ensures Exec([ReadStruct(Reduce(StructPattern(fs)), FieldPaths(base, fs))] + fixups, st, env)
            == Some(st.(vars := StoreAt(st.vars, Target(st.vars, ctx), SetAll(o, fs, v))))
  {
    hide Exec, Run, Step, ExecFor, ExecRepeat;
    var read := ReadStruct(Reduce(StructPattern(fs)), FieldPaths(base, fs));
    RunReadStruct(fs, base, st, env, o, v);
    ExecAppend([read], fixups, st, env);
    ExecSingle(read, st, env);
    var o' := SetAll(o, fs, v);
    var st' := st.(vars := StoreAt(st.vars, Target(st.vars, ctx), o'));
    LookupStored(st.vars, ctx, o');
    SetAllGets(o, fs, v);
    forall i | 0 <= i < |fs| ensures Get(o', fs[i].name) == Get(v, fs[i].name) {
      assert Get(o', fs[i].name) == Some(FieldOf(v, fs[i].name));
    }
    FixupsKeep(ctx, fs, st', env, o', v);
  }

  // ---------------------------------------------------------------- strings and byte arrays

  /** `start = end; end += 4; (length,) = _struct_I.unpack(str[start:end])` */
  lemma LengthReads(p: Path, isString: bool, n: nat, st: State, env: Env, rest: seq<Stmt>) returns (st': State)
    requires n < UINT32_LIMIT && HasInput(env.input, st.end, LE(n, 4)) && "I" in env.structs
    ensures st' == st.(start := st.end, end := st.end + 4, length := n)
    ensures Exec(LenCode(p, isString, Deserialize) + rest, st, env) == Exec(rest, st', env)
  {
    assert LenCode(p, isString, Deserialize) + rest == [StartEnd, Advance(Const(4))] + ([ReadLength] + rest);
    var st1 := Cursor(Const(4), LE(n, 4), st, env, [ReadLength] + rest);
    assert Modulus('I') == UINT32_LIMIT;
    LittleEndianRoundTrip(n, 4);
    st' := st1.(length := n);
    assert Run(ReadLength, st1, env) == Some(st');
    ExecAppend([ReadLength], rest, st1, env);
    ExecSingle(ReadLength, st1, env);
  }

  /** Where an assignment `p = x` goes: to a slot of an object, or to a variable of its own. */
  predicate Assignable(vars: map<Var, Slot>, p: Path, depth: nat, counter: nat)
  {
    if p.attrs == [] then !Stable(p.root, depth, counter) else Anchored(vars, p, depth, counter) && Lookup(vars, p).Some?
  }

  /** The assignment `p = x` and nothing else that matters happened. */
  predicate AssignedTo(vars: map<Var, Slot>, vars': map<Var, Slot>, p: Path, x: Value, depth: nat, counter: nat)
  {
    if p.attrs == [] then
      SameStable(vars, vars', depth, counter) && p.root in vars' && vars'[p.root] == Own(x)
    else Updated(vars, vars', Target(vars, p), x, depth, counter)
  }

  lemma StoreAssigns(vars: map<Var, Slot>, p: Path, x: Value, depth: nat, counter: nat) returns (vars': map<Var, Slot>)
    requires Assignable(vars, p, depth, counter)
    ensures Store(vars, p, x) == Some(vars') && AssignedTo(vars, vars', p, x, depth, counter)
  {
    if p.attrs == [] {
      vars' := vars[p.root := Own(x)];
    } else {
      var t := Target(vars, p);
      GetAfterSet(vars[t.root].v, t.attrs, x);
      vars' := StoreAt(vars, t, x);
    }
  }

  /** `start = end; end += amount; p = str[start:end]` */
  lemma SliceReads(p: Path, amount: Amount, bytes: seq<Byte>, st: State, env: Env, depth: nat, counter: nat) returns (st': State)
    requires Assignable(st.vars, p, depth, counter)
    requires AmountOf(amount, st) == |bytes| && HasInput(env.input, st.end, bytes)
    ensures Exec([StartEnd, Advance(amount), Slice(p)], st, env) == Some(st')
    ensures st'.end == st.end + |bytes| && AssignedTo(st.vars, st'.vars, p, Bytes(bytes), depth, counter)
  {
    var st1 := Cursor(amount, bytes, st, env, [Slice(p)]);
    assert [StartEnd, Advance(amount)] + [Slice(p)] == [StartEnd, Advance(amount), Slice(p)];
    var vars' := StoreAssigns(st1.vars, p, Bytes(bytes), depth, counter);
    st' := st1.(vars := vars');
    ExecSingle(Slice(p), st1, env);
  }

  /** A string, or a byte array of variable length. */
  lemma StringReads(bytes: bool, kind: Kind, p: Path, inContext: bool, v: Value, st: State, env: Env, depth: nat, counter: nat)
    returns (st': State)
    requires !kind.FixedLength?
    requires Assignable(st.vars, p, depth, counter)
    requires v.Bytes? && |v.b| < UINT32_LIMIT && "I" in env.structs
    requires HasInput(env.input, st.end, LE(|v.b|, 4) + v.b)
    ensures Exec(StringGen(bytes, kind, p, inContext, counter, Deserialize).code, st, env) == Some(st')
    ensures st'.end == st.end + 4 + |v.b| && AssignedTo(st.vars, st'.vars, p, v, depth, counter)
  {
    var g := StringGen(bytes, kind, p, inContext, counter, Deserialize);
    var slice := [StartEnd, Advance(LengthVar), Slice(p)];
    assert g.code == LenCode(p, true, Deserialize) + slice;
    InputSplit(env.input, st.end, LE(|v.b|, 4), v.b);
    var st1 := LengthReads(p, true, |v.b|, st, env, slice);
    st' := SliceReads(p, LengthVar, v.b, st1, env, depth, counter);
  }

  lemma FixedBytesReads(n: nat, p: Path, v: Value, st: State, env: Env, depth: nat, counter: nat)
    returns (st': State)
    requires Assignable(st.vars, p, depth, counter)
    requires v.Bytes? && |v.b| == n && HasInput(env.input, st.end, v.b)
    ensures Exec(StringGen(true, FixedLength(n), p, true, counter, Deserialize).code, st, env) == Some(st')
    ensures st'.end == st.end + n && AssignedTo(st.vars, st'.vars, p, v, depth, counter)
  {
    var g := StringGen(true, FixedLength(n), p, true, counter, Deserialize);
    assert g.code == [StartEnd, Advance(Const(n)), Slice(p)];
    st' := SliceReads(p, Const(n), v.b, st, env, depth, counter);
  }

  // ---------------------------------------------------------------- arrays of simple types

  lemma {:induction false} UnpackList(t: Simple, vs: seq<Value>)
    requires forall i :: 0 <= i < |vs| ==> TypedBase(Prim(t), vs[i], true)
    ensures |EncodeList(Prim(t), vs)| == CalcSize(Repeat(Number(Code(t)), |vs|))
    ensures UnpackItems(Repeat(Number(Code(t)), |vs|), EncodeList(Prim(t), vs)) == Some(vs)
  {
    if vs != [] {
      hide UnpackItems, NumOf, Code, CalcSize;
      UnpackList(t, vs[1..]);
      assert TypedBase(Prim(t), vs[0], true);
      UnpackPrim(t, vs[0]);
      UnpackCons(Code(t), EncodeBase(Prim(t), vs[0]), vs[0], Repeat(Number(Code(t)), |vs| - 1), EncodeList(Prim(t), vs[1..]), vs[1..]);
      RepeatCons(Number(Code(t)), |vs|);
      assert vs == [vs[0]] + vs[1..];
    } else {
      NothingUnpacks();
    }
  }

  lemma NothingUnpacks()
    ensures CalcSize([]) == 0 && UnpackItems([], []) == Some([])
  {
  }

  lemma {:induction false} RepeatSize(c: char, n: nat)
    ensures CalcSize(Repeat(Number(c), n)) == Width(c) * n
  {
    if n > 0 {
      RepeatSize(c, n - 1);
      RepeatCons(Number(c), n);
    }
  }

  lemma {:induction false} TruthsKept(vs: seq<Value>)
    requires forall i :: 0 <= i < |vs| ==> TypedBase(Prim(Bool), vs[i], true)
    ensures TruthAll(vs) == Some(vs)
  {
    if vs != [] {
      TruthsKept(vs[1..]);
      assert TypedBase(Prim(Bool), vs[0], true);
      assert vs == [vs[0]] + vs[1..];
    }
  }

  /** The list conversion of an array finds values that are already 0 or 1. */
  lemma MapBoolKeeps(t: Simple, p: Path, st: State, env: Env, vs: seq<Value>)
    requires p.attrs != [] && Lookup(st.vars, p) == Some(List(vs))
    requires forall i :: 0 <= i < |vs| ==> TypedBase(Prim(t), vs[i], true)
    ensures Exec(if t.Bool? then [MapBool(p)] else [], st, env) == Some(st)
  {
    if t.Bool? {
      TruthsKept(vs);
      var tp := Target(st.vars, p);
      SetSame(st.vars[tp.root].v, tp.attrs);
      assert st.vars[tp.root := st.vars[tp.root]] == st.vars;
      assert Store(st.vars, p, List(vs)) == Some(st.vars);
      ExecSingle(MapBool(p), st, env);
    }
  }

  /** Reading a list into a slot and converting it. */
  lemma ListStored(t: Simple, p: Path, read: Stmt, vs: seq<Value>, st: State, env: Env, depth: nat, counter: nat)
    returns (st': State)
    requires p.attrs != [] && Assignable(st.vars, p, depth, counter)
    requires forall i :: 0 <= i < |vs| ==> TypedBase(Prim(t), vs[i], true)
    requires Run(read, st, env) == Bound(st, Store(st.vars, p, List(vs)))
    ensures Exec([read] + (if t.Bool? then [MapBool(p)] else []), st, env) == Some(st')
    ensures st' == st.(vars := st'.vars) && AssignedTo(st.vars, st'.vars, p, List(vs), depth, counter)
  {
    var vars' := StoreAssigns(st.vars, p, List(vs), depth, counter);
    st' := st.(vars := vars');
    UpdatedLookup(st.vars, vars', p, List(vs), depth, counter);
    MapBoolKeeps(t, p, st', env, vs);
    ExecAppend([read], if t.Bool? then [MapBool(p)] else [], st, env);
    ExecSingle(read, st, env);
  }

  lemma FixedArrayReads(t: Simple, n: nat, p: Path, vs: seq<Value>, st: State, env: Env, depth: nat, counter: nat)
    returns (st': State)
    requires p.attrs != [] && Assignable(st.vars, p, depth, counter)
    requires |vs| == n && (forall i :: 0 <= i < |vs| ==> TypedBase(Prim(t), vs[i], true)) && !AdjacentNines(Dec(n))
    requires HasInput(env.input, st.end, EncodeList(Prim(t), vs))
    requires forall q <- SimpleArrayGen(t, FixedLength(n), p, counter, Deserialize).patterns :: q in env.structs
    ensures Exec(SimpleArrayGen(t, FixedLength(n), p, counter, Deserialize).code, st, env) == Some(st')
    ensures st'.end == st.end + |EncodeList(Prim(t), vs)| && AssignedTo(st.vars, st'.vars, p, List(vs), depth, counter)
  {
    hide Exec, Run, Step, ExecFor, ExecRepeat, Get, Set, Lookup, Target, Store;
    var pattern := Dec(n) + [Code(t)];
    var items := Repeat(Number(Code(t)), n);
    assert Reduce(pattern) == SimpleArrayGen(t, FixedLength(n), p, counter, Deserialize).patterns[0];
    CountedFormat(n, Code(t));
    UnpackList(t, vs);
    var read := ReadStar(Reduce(pattern), p);
    var rest := [read] + (if t.Bool? then [MapBool(p)] else []);
    var amount := Const(CalcSizeOf(pattern));
    assert SimpleArrayGen(t, FixedLength(n), p, counter, Deserialize).code == [StartEnd, Advance(amount)] + rest;
    var st1 := Cursor(amount, EncodeList(Prim(t), vs), st, env, rest);
    RunUnpackList(Reduce(pattern), items, p, vs, st1, env);
    st' := ListStored(t, p, read, vs, st1, env, depth, counter);
  }

  /** An undamaged count means what it says, compressed or not. */
  lemma CountedFormat(n: nat, c: char)
    requires IsCode(c) && !AdjacentNines(Dec(n))
    ensures Items(Dec(n) + [c]) == Items(Reduce(Dec(n) + [c])) == Some(Repeat(Number(c), n))
  {
    ReducedCountedItems(n, c);
    CountKeptIffNoAdjacentNines(n);
  }

  lemma PatternReads(t: Simple, p: Path, vs: seq<Value>, st: State, env: Env, depth: nat, counter: nat)
    returns (st': State)
    requires p.attrs != [] && Assignable(st.vars, p, depth, counter)
    requires forall i :: 0 <= i < |vs| ==> TypedBase(Prim(t), vs[i], true)
    requires HasInput(env.input, st.end, EncodeList(Prim(t), vs)) && st.pattern == (Code(t), |vs|)
    ensures Exec([StartEnd, Advance(CalcSizeOfPattern)] + ([ReadPattern(p)] + (if t.Bool? then [MapBool(p)] else [])), st, env) == Some(st')
    ensures st'.end == st.end + |EncodeList(Prim(t), vs)| && AssignedTo(st.vars, st'.vars, p, List(vs), depth, counter)
  {
    hide Exec, ExecFor, ExecRepeat, Get, Set, Lookup, Target, Store, Code, EncodeList;
    UnpackList(t, vs);
    RepeatSize(Code(t), |vs|);
    var read := ReadPattern(p);
    var st1 := Cursor(CalcSizeOfPattern, EncodeList(Prim(t), vs), st, env, [read] + (if t.Bool? then [MapBool(p)] else []));
    assert Run(read, st1, env) == Bound(st1, Store(st1.vars, p, List(vs)));
    st' := ListStored(t, p, read, vs, st1, env, depth, counter);
  }

  lemma VarArrayReads(t: Simple, p: Path, vs: seq<Value>, st: State, env: Env, depth: nat, counter: nat)
    returns (st': State)
    requires p.attrs != [] && Assignable(st.vars, p, depth, counter) && "I" in env.structs
    requires |vs| < UINT32_LIMIT && forall i :: 0 <= i < |vs| ==> TypedBase(Prim(t), vs[i], true)
    requires HasInput(env.input, st.end, LE(|vs|, 4) + EncodeList(Prim(t), vs))
    ensures Exec(SimpleArrayGen(t, VarLength, p, counter, Deserialize).code, st, env) == Some(st')
    ensures st'.end == st.end + 4 + |EncodeList(Prim(t), vs)| && AssignedTo(st.vars, st'.vars, p, List(vs), depth, counter)
  {
    var tail := [StartEnd, Advance(CalcSizeOfPattern)] + ([ReadPattern(p)] + (if t.Bool? then [MapBool(p)] else []));
    var rest := [SetPattern(Code(t))] + tail;
    assert SimpleArrayGen(t, VarLength, p, counter, Deserialize).code == LenCode(p, false, Deserialize) + rest;
    InputSplit(env.input, st.end, LE(|vs|, 4), EncodeList(Prim(t), vs));
    var st1 := LengthReads(p, false, |vs|, st, env, rest);
    var st2 := st1.(pattern := (Code(t), |vs|));
    assert Run(SetPattern(Code(t)), st1, env) == Some(st2);
    ExecAppend([SetPattern(Code(t))], tail, st1, env);
    ExecSingle(SetPattern(Code(t)), st1, env);
    st' := PatternReads(t, p, vs, st2, env, depth, counter);
  }

  // ---------------------------------------------------------------- constructors

  /** A constructor makes an object with the right slots. */
  lemma {:induction false} DefaultShaped(fs: seq<Field>)
    requires ValidFields(fs)
    ensures Shaped(fs, Rec(DefaultFields(fs)))
    decreases fs, 1
  {
    DefaultKeys(fs);
    forall i | 0 <= i < |fs| && IsEmbedded(fs[i])
      ensures Get(Rec(DefaultFields(fs)), fs[i].name).Some?
      ensures Shaped(fs[i].base.spec.fields, Get(Rec(DefaultFields(fs)), fs[i].name).value)
    {
      DefaultSlot(fs, i);
      DefaultShaped(fs[i].base.spec.fields);
      GetOne(Rec(DefaultFields(fs)), fs[i].name[0]);
      assert fs[i].name == [fs[i].name[0]];
      assert DefaultField(fs[i].base, Scalar) == DefaultBase(fs[i].base);
    }
  }

  lemma {:induction false} DefaultKeys(fs: seq<Field>)
    requires forall i :: 0 <= i < |fs| ==> |fs[i].name| == 1
    ensures DefaultFields(fs).Keys == Names(fs)
    decreases fs, 0
  {
    if fs != [] {
      DefaultKeys(fs[1..]);
      forall s ensures s in Names(fs) <==> s == fs[0].name[0] || s in Names(fs[1..]) {
        if s in Names(fs) {
          var i :| 0 <= i < |fs| && s in fs[i].name;
          assert i > 0 ==> fs[1..][i - 1] == fs[i];
        }
        if s in Names(fs[1..]) {
          var i :| 0 <= i < |fs[1..]| && s in fs[1..][i].name;
          assert fs[i + 1] == fs[1..][i];
        }
        assert fs[0].name[0] in fs[0].name;
      }
    }
  }

  lemma {:induction false} DefaultSlot(fs: seq<Field>, i: nat)
    requires i < |fs| && ValidFields(fs)
    ensures fs[i].name[0] in DefaultFields(fs)
    ensures DefaultFields(fs)[fs[i].name[0]] == DefaultField(fs[i].base, fs[i].kind)
    decreases fs, 0
  {
    if i > 0 {
      assert forall k :: 0 <= k < |fs[1..]| ==> fs[1..][k] == fs[k + 1];
      DefaultSlot(fs[1..], i - 1);
      assert fs[0].name != fs[i].name;
      assert fs[0].name == [fs[0].name[0]] && fs[i].name == [fs[i].name[0]];
    }
  }

  // ---------------------------------------------------------------- loops over strings and messages

  function ItemCode(base: Base, depth: nat, counter: nat): seq<Stmt>
    requires !base.Prim?
  {
    CreateCode(base, depth) + ItemGen(base, depth, counter, Deserialize).code
  }

  predicate ValidBase(base: Base) { base.Embedded? ==> ValidFields(base.spec.fields) }

  /** One element ends up in the loop variable. */
  lemma {:induction false} ItemReads(base: Base, depth: nat, counter: nat, v: Value, st: State, env: Env) returns (st': State)
    requires !base.Prim? && ValidBase(base) && Defined(ItemGen(base, depth, counter, Deserialize), env)
    requires TypedBase(base, v, true) && !DamagedBase(Deserialize, base, v)
    requires HasInput(env.input, st.end, EncodeBase(base, v))
    ensures Exec(ItemCode(base, depth, counter), st, env) == Some(st')
    ensures st'.end == st.end + |EncodeBase(base, v)| && SameStable(st.vars, st'.vars, depth, counter)
    ensures Loop(depth) in st'.vars && st'.vars[Loop(depth)] == Own(v)
    decreases base, 1
  {
    hide Exec, Run, Step, ExecFor, ExecRepeat, Get, Set, Lookup, Target, Store;
    var item := Path(Loop(depth), []);
    var code := ItemGen(base, depth, counter, Deserialize).code;
    if base.Text? {
      st' := StringReads(false, Scalar, item, false, v, st, env, depth, counter);
      assert [] + code == code;
    } else {
      st' := MessageItemReads(base, depth, counter, v, st, env);
    }
  }

  lemma {:induction false} MessageItemReads(base: Base, depth: nat, counter: nat, v: Value, st: State, env: Env) returns (st': State)
    requires base.Embedded? && ValidBase(base) && Defined(ItemGen(base, depth, counter, Deserialize), env)
    requires TypedBase(base, v, true) && !DamagedBase(Deserialize, base, v)
    requires HasInput(env.input, st.end, EncodeBase(base, v))
    ensures Exec(ItemCode(base, depth, counter), st, env) == Some(st')
    ensures st'.end == st.end + |EncodeBase(base, v)| && SameStable(st.vars, st'.vars, depth, counter)
    ensures Loop(depth) in st'.vars && st'.vars[Loop(depth)] == Own(v)
    decreases base, 0
  {
    hide Exec, Run, Step, ExecFor, ExecRepeat, Get, Set, Lookup, Target, Store;
    var item, fs := Path(Loop(depth), []), base.spec.fields;
    var code := FieldsGen(fs, item, depth + 1, counter, Deserialize).code;
    var o := Rec(DefaultFields(fs));
    var st1 := Constructed(fs, base.spec, depth, counter, st, env);
    ExecAppend([New(item, base.spec)], code, st, env);
    ExecSingle(New(item, base.spec), st, env);
    SetAllCovers(o, fs, v);
    FieldsRead(fs, item, depth + 1, counter, st1, env, o, v);
    st' := Exec(code, st1, env).value;
    LoopVariableHolds(st1.vars, st'.vars, depth, counter, o, v);
  }

  /** What is left of reading into the loop variable, seen from outside the loop. */
  lemma LoopVariableHolds(vars: map<Var, Slot>, vars': map<Var, Slot>, depth: nat, counter: nat, o: Value, v: Value)
    requires Loop(depth) in vars && vars[Loop(depth)] == Own(o)
    requires Updated(vars, vars', Path(Loop(depth), []), v, depth + 1, counter)
    ensures Loop(depth) in vars' && vars'[Loop(depth)] == Own(v)
    ensures SameStable(vars, vars', depth, counter)
  {
  }

  /** `val<k> = <constructor>()` */
  lemma Constructed(fs: seq<Field>, spec: Spec, depth: nat, counter: nat, st: State, env: Env) returns (st': State)
    requires spec.fields == fs && ValidFields(fs)
    ensures Run(New(Path(Loop(depth), []), spec), st, env) == Some(st')
    ensures st' == st.(vars := st.vars[Loop(depth) := Own(Rec(DefaultFields(fs)))])
    ensures Anchored(st'.vars, Path(Loop(depth), []), depth + 1, counter)
    ensures Lookup(st'.vars, Path(Loop(depth), [])) == Some(Rec(DefaultFields(fs)))
    ensures Target(st'.vars, Path(Loop(depth), [])) == Path(Loop(depth), [])
    ensures Shaped(fs, Rec(DefaultFields(fs)))
  {
    DefaultShaped(fs);
    st' := st.(vars := st.vars[Loop(depth) := Own(Rec(DefaultFields(fs)))]);
  }

  /** `p.append(val<k>)` */
  lemma RunAppend(p: Path, x: Var, done: seq<Value>, v: Value, st: State, env: Env, depth: nat, counter: nat) returns (st': State)
    requires p.attrs != [] && Anchored(st.vars, p, depth, counter) && Lookup(st.vars, p) == Some(List(done))
    requires x in st.vars && st.vars[x] == Own(v)
    ensures Run(Append(p, x), st, env) == Some(st') && st' == st.(vars := st'.vars)
    ensures Updated(st.vars, st'.vars, Target(st.vars, p), List(done + [v]), depth, counter)
  {
    assert Lookup(st.vars, Path(x, [])) == Some(v);
    var vars' := StoreAssigns(st.vars, p, List(done + [v]), depth, counter);
    st' := st.(vars := vars');
  }

  /** One round of the loop appends one element. */
  lemma {:induction false} RoundReads(base: Base, p: Path, depth: nat, counter: nat, done: seq<Value>, vs: seq<Value>, st: State, env: Env)
    returns (st': State)
    requires !base.Prim? && ValidBase(base) && Defined(ItemGen(base, depth, counter, Deserialize), env)
    requires vs != [] && ListAhead(base, vs, env.input, st.end) && !DamagedBase(Deserialize, base, vs[0])
    requires p.attrs != [] && Anchored(st.vars, p, depth, counter) && Lookup(st.vars, p) == Some(List(done))
    ensures Exec(ItemCode(base, depth, counter) + [Append(p, Loop(depth))], st, env) == Some(st')
    ensures ListAhead(base, vs[1..], env.input, st'.end)
    ensures st'.end + |EncodeList(base, vs[1..])| == st.end + |EncodeList(base, vs)|
    ensures Updated(st.vars, st'.vars, Target(st.vars, p), List(done + [vs[0]]), depth, counter)
    ensures Anchored(st'.vars, p, depth, counter) && Target(st'.vars, p) == Target(st.vars, p)
    ensures Lookup(st'.vars, p) == Some(List(done + [vs[0]]))
    decreases base, 2
  {
    hide *;
    ListHead(base, vs, env.input, st.end);
    var st1 := ItemReads(base, depth, counter, vs[0], st, env);
    st' := RoundEnds(ItemCode(base, depth, counter), p, depth, counter, done, vs[0], st, st1, env);
  }

  lemma ListHead(base: Base, vs: seq<Value>, input: seq<Byte>, pos: nat)
    requires vs != [] && ListAhead(base, vs, input, pos)
    ensures TypedBase(base, vs[0], true) && HasInput(input, pos, EncodeBase(base, vs[0]))
    ensures ListAhead(base, vs[1..], input, pos + |EncodeBase(base, vs[0])|)
    ensures |EncodeList(base, vs)| == |EncodeBase(base, vs[0])| + |EncodeList(base, vs[1..])|
  {
    hide TypedBase, EncodeBase, HasInput;
    assert EncodeList(base, vs) == EncodeBase(base, vs[0]) + EncodeList(base, vs[1..]);
    InputSplit(input, pos, EncodeBase(base, vs[0]), EncodeList(base, vs[1..]));
  }

  /** The `append` at the end of a round. */
  lemma RoundEnds(code: seq<Stmt>, p: Path, depth: nat, counter: nat, done: seq<Value>, v: Value, st: State, st1: State, env: Env)
    returns (st': State)
    requires Exec(code, st, env) == Some(st1) && SameStable(st.vars, st1.vars, depth, counter)
    requires Loop(depth) in st1.vars && st1.vars[Loop(depth)] == Own(v)
    requires p.attrs != [] && Anchored(st.vars, p, depth, counter) && Lookup(st.vars, p) == Some(List(done))
    ensures Exec(code + [Append(p, Loop(depth))], st, env) == Some(st') && st'.end == st1.end
    ensures Updated(st.vars, st'.vars, Target(st.vars, p), List(done + [v]), depth, counter)
    ensures Anchored(st'.vars, p, depth, counter) && Target(st'.vars, p) == Target(st.vars, p)
    ensures Lookup(st'.vars, p) == Some(List(done + [v]))
  {
    hide Exec, Run, Step, ExecFor, ExecRepeat, Get, Set, Lookup, Target, Store;
    LookupStable(st.vars, st1.vars, p, depth, counter);
    st' := RunAppend(p, Loop(depth), done, v, st1, env, depth, counter);
    ExecAppend(code, [Append(p, Loop(depth))], st, env);
    ExecSingle(Append(p, Loop(depth)), st1, env);
    SameThenUpdated(st.vars, st1.vars, st'.vars, p, List(done + [v]), depth, counter);
    UpdatedLookup(st.vars, st'.vars, p, List(done + [v]), depth, counter);
  }

  /** The elements of a list are next in the input. */
  predicate ListAhead(base: Base, vs: seq<Value>, input: seq<Byte>, pos: nat)
  {
    (forall i :: 0 <= i < |vs| ==> TypedBase(base, vs[i], true)) && HasInput(input, pos, EncodeList(base, vs))
  }

  lemma {:induction false} RepeatReads(base: Base, p: Path, depth: nat, counter: nat, done: seq<Value>, vs: seq<Value>, st: State, env: Env)
    returns (st': State)
    requires !base.Prim? && ValidBase(base) && Defined(ItemGen(base, depth, counter, Deserialize), env)
    requires ListAhead(base, vs, env.input, st.end) && !DamagedList(Deserialize, base, vs)
    requires p.attrs != [] && Anchored(st.vars, p, depth, counter) && Lookup(st.vars, p) == Some(List(done))
    ensures ExecRepeat(|vs|, ItemCode(base, depth, counter) + [Append(p, Loop(depth))], st, env) == Some(st')
    ensures st'.end == st.end + |EncodeList(base, vs)|
    ensures Updated(st.vars, st'.vars, Target(st.vars, p), List(done + vs), depth, counter)
    decreases base, 3, |vs|
  {
    hide *;
    if vs == [] {
      st' := st;
      NothingRepeats(base, p, ItemCode(base, depth, counter) + [Append(p, Loop(depth))], depth, counter, done, vs, st, env);
    } else {
      ListDamage(Deserialize, base, vs);
      var st1 := RoundReads(base, p, depth, counter, done, vs, st, env);
      st' := RepeatReads(base, p, depth, counter, done + [vs[0]], vs[1..], st1, env);
      assert done + [vs[0]] + vs[1..] == done + vs;
      RepeatStep(|vs|, ItemCode(base, depth, counter) + [Append(p, Loop(depth))], st, st1, st', env,
                 Target(st.vars, p), List(done + [vs[0]]), List(done + vs), depth, counter);
    }
  }

  lemma NothingRepeats(base: Base, p: Path, body: seq<Stmt>, depth: nat, counter: nat, done: seq<Value>, vs: seq<Value>, st: State, env: Env)
    requires vs == [] && Anchored(st.vars, p, depth, counter) && Lookup(st.vars, p) == Some(List(done))
    ensures ExecRepeat(|vs|, body, st, env) == Some(st) && EncodeList(base, vs) == []
    ensures Updated(st.vars, st.vars, Target(st.vars, p), List(done + vs), depth, counter)
  {
    NothingRead(p, depth, counter, st, env, List(done));
    assert done + vs == done;
  }

  lemma RepeatStep(n: nat, body: seq<Stmt>, st: State, st1: State, st': State, env: Env, t: Path, x: Value, y: Value,
                   depth: nat, counter: nat)
    requires n > 0 && Exec(body, st, env) == Some(st1) && ExecRepeat(n - 1, body, st1, env) == Some(st')
    requires Updated(st.vars, st1.vars, t, x, depth, counter) && Updated(st1.vars, st'.vars, t, y, depth, counter)
    ensures ExecRepeat(n, body, st, env) == Some(st') && Updated(st.vars, st'.vars, t, y, depth, counter)
  {
    UpdatedTwice(st.vars, st1.vars, st'.vars, t, x, y, depth, counter);
  }

  lemma SameThenUpdated(v0: map<Var, Slot>, v1: map<Var, Slot>, v2: map<Var, Slot>, p: Path, x: Value, depth: nat, counter: nat)
    requires Anchored(v0, p, depth, counter) && Lookup(v0, p).Some?
    requires SameStable(v0, v1, depth, counter) && Updated(v1, v2, Target(v1, p), x, depth, counter)
    ensures Target(v1, p) == Target(v0, p) && Updated(v0, v2, Target(v0, p), x, depth, counter)
  {
  }

  /** The whole loop: an empty list in the slot, then one element after the other. */
  lemma {:induction false} LoopBodyReads(base: Base, times: Amount, p: Path, depth: nat, counter: nat, vs: seq<Value>, st: State, env: Env)
    returns (st': State)
    requires !base.Prim? && ValidBase(base) && Defined(ItemGen(base, depth, counter, Deserialize), env)
    requires ListAhead(base, vs, env.input, st.end) && !DamagedList(Deserialize, base, vs) && AmountOf(times, st) == |vs|
    requires p.attrs != [] && Assignable(st.vars, p, depth, counter)
    ensures Exec([SetEmpty(p), ForRange(times, ItemCode(base, depth, counter) + [Append(p, Loop(depth))])], st, env) == Some(st')
    ensures st'.end == st.end + |EncodeList(base, vs)| && AssignedTo(st.vars, st'.vars, p, List(vs), depth, counter)
    decreases base, 4
  {
    hide Exec, Run, Step, ExecFor, ExecRepeat, Get, Set, Lookup, Target, Store;
    var loop := ForRange(times, ItemCode(base, depth, counter) + [Append(p, Loop(depth))]);
    var st1 := RunSetEmpty(p, loop, st, env, depth, counter);
    st' := RepeatReads(base, p, depth, counter, [], vs, st1, env);
    assert [] + vs == vs;
    UpdatedTwice(st.vars, st1.vars, st'.vars, Target(st.vars, p), List([]), List(vs), depth, counter);
  }

  /** `p = []` in front of a loop. */
  lemma RunSetEmpty(p: Path, loop: Stmt, st: State, env: Env, depth: nat, counter: nat) returns (st': State)
    requires p.attrs != [] && Assignable(st.vars, p, depth, counter) && loop.ForRange?
    ensures Exec([SetEmpty(p), loop], st, env) == ExecRepeat(AmountOf(loop.times, st), loop.body, st', env)
    ensures st' == st.(vars := st'.vars) && Updated(st.vars, st'.vars, Target(st.vars, p), List([]), depth, counter)
    ensures Anchored(st'.vars, p, depth, counter) && Lookup(st'.vars, p) == Some(List([])) && Target(st'.vars, p) == Target(st.vars, p)
  {
    var vars' := StoreAssigns(st.vars, p, List([]), depth, counter);
    st' := st.(vars := vars');
    assert Run(SetEmpty(p), st, env) == Some(st');
    ExecTwo(SetEmpty(p), loop, st, st', env);
    UpdatedLookup(st.vars, vars', p, List([]), depth, counter);
  }

  lemma {:induction false} LoopReads(base: Base, kind: Kind, p: Path, depth: nat, counter: nat, v: Value, st: State, env: Env)
    returns (st': State)
    requires !base.Prim? && !kind.Scalar? && ValidBase(base)
    requires Defined(LoopGen(base, kind, p, depth, counter, Deserialize), env)
    requires TypedField(base, kind, v, true) && !DamagedField(Deserialize, base, kind, v)
    requires p.attrs != [] && Assignable(st.vars, p, depth, counter)
    requires HasInput(env.input, st.end, EncodeField(base, kind, v))
    ensures Exec(LoopGen(base, kind, p, depth, counter, Deserialize).code, st, env) == Some(st')
    ensures st'.end == st.end + |EncodeField(base, kind, v)| && AssignedTo(st.vars, st'.vars, p, v, depth, counter)
    decreases base, 5
  {
    hide Exec, Run, Step, ExecFor, ExecRepeat, Get, Set, Lookup, Target, Store;
    var loop := [SetEmpty(p), ForRange(Times(kind), ItemCode(base, depth, counter) + [Append(p, Loop(depth))])];
    ListField(base, kind, v, env.input, st.end);
    if kind.VarLength? {
      var st1 := LengthReads(p, false, |v.vs|, st, env, loop);
      st' := LoopBodyReads(base, Times(kind), p, depth, counter, v.vs, st1, env);
    } else {
      assert [] + loop == loop;
      st' := LoopBodyReads(base, Times(kind), p, depth, counter, v.vs, st, env);
    }
  }

  /** An array field of strings or messages: its elements, and where they are in the input. */
  lemma ListField(base: Base, kind: Kind, v: Value, input: seq<Byte>, pos: nat)
    requires !base.Prim? && !kind.Scalar?
    requires TypedField(base, kind, v, true)
    requires HasInput(input, pos, EncodeField(base, kind, v))
    ensures v.List? && (forall i :: 0 <= i < |v.vs| ==> TypedBase(base, v.vs[i], true))
    ensures DamagedField(Deserialize, base, kind, v) == DamagedList(Deserialize, base, v.vs)
    ensures kind.FixedLength? ==> |v.vs| == kind.n && EncodeField(base, kind, v) == EncodeList(base, v.vs)
    ensures kind.VarLength? ==> |v.vs| < UINT32_LIMIT && EncodeField(base, kind, v) == LE(|v.vs|, 4) + EncodeList(base, v.vs)
    ensures kind.VarLength? ==> HasInput(input, pos, LE(|v.vs|, 4)) && HasInput(input, pos + 4, EncodeList(base, v.vs))
  {
    if kind.VarLength? {
      InputSplit(input, pos, LE(|v.vs|, 4), EncodeList(base, v.vs));
    } else {
      assert [] + EncodeList(base, v.vs) == EncodeList(base, v.vs);
    }
  }

  // ---------------------------------------------------------------- whole field lists

  /** A slot assignment seen from the object that has the slot. */
  lemma SlotUpdated(vars: map<Var, Slot>, vars': map<Var, Slot>, ctx: Path, name: seq<string>, o: Value, x: Value, depth: nat, counter: nat)
    requires Lookup(vars, ctx) == Some(o) && name != [] && Get(o, name).Some?
    requires Updated(vars, vars', Target(vars, ctx.Dot(name)), x, depth, counter)
    ensures Updated(vars, vars', Target(vars, ctx), Assigned(o, name, x), depth, counter)
  {
    var t := Target(vars, ctx);
    TargetDot(vars, ctx, name);
    SetThrough(vars[t.root].v, t.attrs, name, x);
    GetAfterSet(o, name, x);
  }

  lemma {:induction false} ComplexReads(f: Field, ctx: Path, depth: nat, counter: nat, st: State, env: Env, o: Value, v: Value)
    returns (st': State)
    requires !IsSimple(f) && EmbeddedValid([f])
    requires Anchored(st.vars, ctx, depth, counter) && Lookup(st.vars, ctx) == Some(o) && Settable([f], o)
    requires TypedField(f.base, f.kind, v, true) && !DamagedField(Deserialize, f.base, f.kind, v)
    requires HasInput(env.input, st.end, EncodeField(f.base, f.kind, v))
    requires Defined(ComplexGen(f, ctx, depth, counter, Deserialize), env)
    ensures Exec(ComplexGen(f, ctx, depth, counter, Deserialize).code, st, env) == Some(st')
    ensures st'.end == st.end + |EncodeField(f.base, f.kind, v)|
    ensures Updated(st.vars, st'.vars, Target(st.vars, ctx), Assigned(o, f.name, v), depth, counter)
    decreases f, 1
  {
    hide Exec, Run, Step, ExecFor, ExecRepeat, Get, Set, Lookup, Target, Store;
    var p := ctx.Dot(f.name);
    assert [f][0] == f;
    LookupDot(st.vars, ctx, f.name);
    assert Assignable(st.vars, p, depth, counter);
    if !f.kind.Scalar? {
      if IsByteArray(f.base, f.kind) {
        if f.kind.VarLength? {
          st' := StringReads(true, f.kind, p, true, v, st, env, depth, counter);
        } else {
          assert [] + v.b == v.b;
          st' := FixedBytesReads(f.kind.n, p, v, st, env, depth, counter);
        }
      } else if f.base.Prim? {
        if f.kind.VarLength? {
          st' := VarArrayReads(f.base.t, p, v.vs, st, env, depth, counter);
        } else {
          assert [] + EncodeList(f.base, v.vs) == EncodeList(f.base, v.vs);
          st' := FixedArrayReads(f.base.t, f.kind.n, p, v.vs, st, env, depth, counter);
        }
      } else {
        st' := LoopReads(f.base, f.kind, p, depth, counter, v, st, env);
      }
    } else if f.base.Text? {
      st' := StringReads(false, Scalar, p, true, v, st, env, depth, counter);
    } else {
      st' := EmbeddedReads(f, p, depth, counter, st, env, Get(o, f.name).value, v);
    }
    SlotUpdated(st.vars, st'.vars, ctx, f.name, o, v, depth, counter);
  }

  lemma {:induction false} EmbeddedReads(f: Field, p: Path, depth: nat, counter: nat, st: State, env: Env, sub: Value, v: Value)
    returns (st': State)
    requires IsEmbedded(f) && ValidFields(f.base.spec.fields)
    requires Anchored(st.vars, p, depth, counter) && Lookup(st.vars, p) == Some(sub) && Shaped(f.base.spec.fields, sub)
    requires TypedBase(f.base, v, true) && !DamagedBase(Deserialize, f.base, v)
    requires HasInput(env.input, st.end, EncodeBase(f.base, v))
    requires Defined(FieldsGen(f.base.spec.fields, Path(Ctx(counter + 1), []), depth + 1, counter + 1, Deserialize), env)
    ensures
      var code := FieldsGen(f.base.spec.fields, Path(Ctx(counter + 1), []), depth + 1, counter + 1, Deserialize).code;
      Exec([Assign(Ctx(counter + 1), p)] + code, st, env) == Some(st')
    ensures st'.end == st.end + |EncodeBase(f.base, v)|
    ensures Updated(st.vars, st'.vars, Target(st.vars, p), v, depth, counter)
    decreases f, 0
  {
    hide Exec, Run, Step, ExecFor, ExecRepeat, Get, Set, Lookup, Target, Store;
    var fs, q := f.base.spec.fields, Path(Ctx(counter + 1), []);
    var code := FieldsGen(fs, q, depth + 1, counter + 1, Deserialize).code;
    var st1 := AssignCtx(p, st, env, sub, depth, counter, code);
    SetAllCovers(sub, fs, v);
    FieldsRead(fs, q, depth + 1, counter + 1, st1, env, sub, v);
    st' := Exec(code, st1, env).value;
    UpdatedWeaker(st1.vars, st'.vars, Target(st.vars, p), v, depth + 1, counter + 1, depth, counter);
  }

  lemma SettableSplit(fs: seq<Field>, k: nat, o: Value)
    requires k <= |fs| && Settable(fs, o) && AllApart(fs) && EmbeddedValid(fs)
    ensures Settable(fs[..k], o) && AllApart(fs[..k]) && EmbeddedValid(fs[..k])
    ensures AllApart(fs[k..]) && EmbeddedValid(fs[k..])
  {
    assert forall i :: 0 <= i < |fs[k..]| ==> fs[k..][i] == fs[k + i];
  }

  lemma {:induction false} SettableAfter(fs: seq<Field>, k: nat, o: Value, v: Value)
    requires k <= |fs| && Settable(fs, o) && AllApart(fs)
    ensures Settable(fs[k..], SetAll(o, fs[..k], v))
    decreases k
  {
    if k == 0 {
      assert fs[0..] == fs;
    } else {
      var x := FieldOf(v, fs[0].name);
      SettableTail(fs, o, x);
      SettableAfter(fs[1..], k - 1, Assigned(o, fs[0].name, x), v);
      assert fs[..k][1..] == fs[1..][..k - 1] && fs[1..][k - 1..] == fs[k..];
    }
  }

  lemma StrictSplit(fs: seq<Field>, k: nat, v: Value)
    requires k <= |fs| && TypedFields(fs, v, true)
    ensures TypedFields(fs[..k], v, true) && TypedFields(fs[k..], v, true)
  {
    assert forall i :: 0 <= i < |fs[k..]| ==> fs[k..][i] == fs[k + i];
  }

  lemma NothingRead(ctx: Path, depth: nat, counter: nat, st: State, env: Env, o: Value)
    requires Anchored(st.vars, ctx, depth, counter) && Lookup(st.vars, ctx) == Some(o)
    ensures ReadOutcome(st, Exec([], st, env), 0, Target(st.vars, ctx), o, depth, counter)
  {
    var t := Target(st.vars, ctx);
    SetSame(st.vars[t.root].v, t.attrs);
  }

  lemma {:induction false} ChunksRead(fs: seq<Field>, ctx: Path, depth: nat, counter: nat, st: State, env: Env, o: Value, v: Value)
    requires EmbeddedValid(fs) && Settable(fs, o) && AllApart(fs)
    requires Anchored(st.vars, ctx, depth, counter) && Lookup(st.vars, ctx) == Some(o)
    requires TypedFields(fs, v, true) && !DamagedFields(Deserialize, fs, v)
    requires HasInput(env.input, st.end, EncodeFields(fs, v))
    requires Defined(ChunksGen(fs, ctx, depth, counter, Deserialize), env)
    ensures ReadOutcome(st, Exec(ChunksGen(fs, ctx, depth, counter, Deserialize).code, st, env), |EncodeFields(fs, v)|,
                        Target(st.vars, ctx), SetAll(o, fs, v), depth, counter)
    decreases fs, 2
  {
    hide Exec, Run, Step, ExecFor, ExecRepeat, Get, Set, Lookup, Target, Store;
    if fs == [] {
      NothingRead(ctx, depth, counter, st, env, o);
    } else {
      ReadingSplit(fs, FirstLength(fs), o, v, env.input, st.end);
      var first := FirstReads(fs, ctx, depth, counter, st, env, o, v);
      RestReads(ChunksGen(fs, ctx, depth, counter, Deserialize), fs, FirstLength(fs), ctx, depth, counter, first, st, env, o, v);
    }
  }

  /** Everything that reading a prefix and then the rest needs. */
  lemma ReadingSplit(fs: seq<Field>, n: nat, o: Value, v: Value, input: seq<Byte>, pos: nat)
    requires n <= |fs| && EmbeddedValid(fs) && Settable(fs, o) && AllApart(fs)
    requires TypedFields(fs, v, true) && HasInput(input, pos, EncodeFields(fs, v))
    ensures var a := fs[..n];
      EmbeddedValid(a) && Settable(a, o) && AllApart(a) && TypedFields(a, v, true) && HasInput(input, pos, EncodeFields(a, v))
    ensures var a, b := fs[..n], fs[n..];
      DamagedFields(Deserialize, fs, v) == (DamagedFields(Deserialize, a, v) || DamagedFields(Deserialize, b, v))
    ensures var a, b := fs[..n], fs[n..];
      EmbeddedValid(b) && Settable(b, SetAll(o, a, v)) && AllApart(b) && TypedFields(b, v, true)
      && HasInput(input, pos + |EncodeFields(a, v)|, EncodeFields(b, v))
      && |EncodeFields(fs, v)| == |EncodeFields(a, v)| + |EncodeFields(b, v)|
      && SetAll(o, fs, v) == SetAll(SetAll(o, a, v), b, v)
  {
    hide EncodeFields, TypedFields, DamagedFields, SetAll, Settable, AllApart, EmbeddedValid, HasInput;
    var a, b := fs[..n], fs[n..];
    assert a + b == fs;
    EncodeAppend(a, b, v);
    DamageAppend(Deserialize, a, b, v);
    SettableSplit(fs, n, o);
    StrictSplit(fs, n, v);
    InputSplit(input, pos, EncodeFields(a, v), EncodeFields(b, v));
    SettableAfter(fs, n, o, v);
    SetAllAppend(o, a, b, v);
  }

  /** The first chunk, or the first field when it is not simple. */
  lemma {:induction false} FirstReads(fs: seq<Field>, ctx: Path, depth: nat, counter: nat, st: State, env: Env, o: Value, v: Value)
    returns (first: Gen)
    requires fs != [] && EmbeddedValid(fs) && Settable(fs, o) && AllApart(fs)
    requires Anchored(st.vars, ctx, depth, counter) && Lookup(st.vars, ctx) == Some(o)
    requires TypedFields(fs, v, true) && !DamagedFields(Deserialize, fs[..FirstLength(fs)], v)
    requires HasInput(env.input, st.end, EncodeFields(fs, v))
    requires Defined(ChunksGen(fs, ctx, depth, counter, Deserialize), env)
    ensures first.counter >= counter
    ensures ChunksGen(fs, ctx, depth, counter, Deserialize)
            == first.Then(ChunksGen(fs[FirstLength(fs)..], ctx, depth, first.counter, Deserialize))
    ensures ReadOutcome(st, Exec(first.code, st, env), |EncodeFields(fs[..FirstLength(fs)], v)|, Target(st.vars, ctx),
                        SetAll(o, fs[..FirstLength(fs)], v), depth, counter)
    decreases fs, 1
  {
    hide Exec, Run, Step, ExecFor, ExecRepeat, Get, Set, Lookup, Target, Store;
    var k := ChunkLength(fs);
    ReadingSplit(fs, FirstLength(fs), o, v, env.input, st.end);
    if k > 0 {
      first := SimpleGen(fs[..k], ctx, counter, Deserialize);
      SimpleReads(fs[..k], ctx, depth, counter, st, env, o, v);
    } else {
      first := ComplexGen(fs[0], ctx, depth, counter, Deserialize);
      assert fs[..1] == [fs[0]];
      OneReads(fs[0], ctx, depth, counter, st, env, o, v);
    }
  }

  lemma {:induction false} OneReads(f: Field, ctx: Path, depth: nat, counter: nat, st: State, env: Env, o: Value, v: Value)
    requires !IsSimple(f) && EmbeddedValid([f]) && Settable([f], o)
    requires Anchored(st.vars, ctx, depth, counter) && Lookup(st.vars, ctx) == Some(o)
    requires TypedFields([f], v, true) && !DamagedFields(Deserialize, [f], v)
    requires HasInput(env.input, st.end, EncodeFields([f], v))
    requires Defined(ComplexGen(f, ctx, depth, counter, Deserialize), env)
    ensures ReadOutcome(st, Exec(ComplexGen(f, ctx, depth, counter, Deserialize).code, st, env), |EncodeFields([f], v)|,
                        Target(st.vars, ctx), SetAll(o, [f], v), depth, counter)
    decreases f, 2
  {
    hide Exec, Run, Step, ExecFor, ExecRepeat, Get, Set, Lookup, Target, Store;
    assert [f][0] == f && [f][1..] == [];
    HeadEncodes(f, v);
    HeadDamaged(Deserialize, f, v);
    var x := Get(v, f.name).value;
    var st' := ComplexReads(f, ctx, depth, counter, st, env, o, x);
    assert SetAll(o, [f], v) == SetAll(Assigned(o, f.name, x), [], v) == Assigned(o, f.name, x);
  }

  lemma {:induction false} RestReads(whole: Gen, fs: seq<Field>, n: nat, ctx: Path, depth: nat, counter: nat, first: Gen,
                                     st: State, env: Env, o: Value, v: Value)
    requires 1 <= n <= |fs| && EmbeddedValid(fs) && Settable(fs, o) && AllApart(fs)
    requires TypedFields(fs, v, true) && !DamagedFields(Deserialize, fs, v)
    requires HasInput(env.input, st.end, EncodeFields(fs, v))
    requires Anchored(st.vars, ctx, depth, counter) && Lookup(st.vars, ctx).Some?
    requires ReadOutcome(st, Exec(first.code, st, env), |EncodeFields(fs[..n], v)|, Target(st.vars, ctx),
                         SetAll(o, fs[..n], v), depth, counter)
    requires first.counter >= counter
    requires whole == first.Then(ChunksGen(fs[n..], ctx, depth, first.counter, Deserialize)) && Defined(whole, env)
    ensures ReadOutcome(st, Exec(whole.code, st, env), |EncodeFields(fs, v)|, Target(st.vars, ctx), SetAll(o, fs, v), depth, counter)
    decreases fs, 1
  {
    hide Exec, Run, Step, ExecFor, ExecRepeat, Get, Set, Lookup, Target, Store, EncodeFields, TypedFields, DamagedFields, ChunksGen, SetAll, Settable, AllApart, EmbeddedValid;
    var rest, o1 := fs[n..], SetAll(o, fs[..n], v);
    var g := ChunksGen(rest, ctx, depth, first.counter, Deserialize);
    var st1 := Exec(first.code, st, env).value;
    ReadingSplit(fs, n, o, v, env.input, st.end);
    UpdatedLookup(st.vars, st1.vars, ctx, o1, depth, counter);
    Monotone(st1.vars, ctx, depth, counter, depth, first.counter);
    ChunksRead(rest, ctx, depth, first.counter, st1, env, o1, v);
    ExecAppend(first.code, g.code, st, env);
    ReadInSequence(st, st1, Exec(g.code, st1, env), |EncodeFields(fs[..n], v)|, |EncodeFields(rest, v)|,
                   Target(st.vars, ctx), o1, SetAll(o1, rest, v), depth, counter, first.counter);
  }

  lemma ReadInSequence(st: State, st1: State, r: Option<State>, size: nat, size': nat, t: Path, x: Value, y: Value,
                       depth: nat, counter: nat, counter': nat)
    requires ReadOutcome(st, Some(st1), size, t, x, depth, counter)
    requires counter <= counter' && ReadOutcome(st1, r, size', t, y, depth, counter')
    ensures ReadOutcome(st, r, size + size', t, y, depth, counter)
  {
    UpdatedWeaker(st1.vars, r.value.vars, t, y, depth, counter', depth, counter);
    UpdatedTwice(st.vars, st1.vars, r.value.vars, t, x, y, depth, counter);
  }

  lemma {:induction false} FieldsRead(fs: seq<Field>, ctx: Path, depth: nat, counter: nat, st: State, env: Env, o: Value, v: Value)
    requires EmbeddedValid(fs) && Settable(fs, o) && AllApart(fs)
    requires Anchored(st.vars, ctx, depth, counter) && Lookup(st.vars, ctx) == Some(o)
    requires TypedFields(fs, v, true) && !DamagedFields(Deserialize, fs, v)
    requires HasInput(env.input, st.end, EncodeFields(fs, v))
    requires Defined(FieldsGen(fs, ctx, depth, counter, Deserialize), env)
    ensures ReadOutcome(st, Exec(FieldsGen(fs, ctx, depth, counter, Deserialize).code, st, env), |EncodeFields(fs, v)|,
                        Target(st.vars, ctx), SetAll(o, fs, v), depth, counter)
    decreases fs, 4
  {
    hide Exec, Run, Step, ExecFor, ExecRepeat, Get, Set, Lookup, Target, Store;
    ChunksRead(fs, ctx, depth, counter, st, env, o, v);
  }
}
