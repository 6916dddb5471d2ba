/**
 The generated deserialize code on arbitrary input. Where it returns, the encoding of what it
 stored is no longer than the bytes it had; and without bools, as long as it stays within the
 input, that encoding is exactly the bytes it passed over.
 */
module AnyInput {
  import opened Wrappers
  import opened Sequences
  import opened StructFormat
  import opened Messages
  import opened Attributes
  import opened PyCode
  import opened Genpy
  import opened Serialization
  import opened Deserialization
  import opened DamagedReading
  import opened Flattening

  // ---------------------------------------------------------------- what code passes over

  function Clip(input: seq<Byte>, pos: nat): nat
  {
    if pos < |input| then pos else |input|
  }

  /** Between `pos` and `end` the code found `bytes`; `exact` unless a bool was read. */
  predicate Took(input: seq<Byte>, pos: nat, end: nat, bytes: seq<Byte>, exact: bool)
  {
    && pos <= end && |bytes| <= Clip(input, end) - Clip(input, pos)
    && (exact && end <= |input| ==> bytes == input[pos..end])
  }

  lemma TookBoth(input: seq<Byte>, pos: nat, mid: nat, end: nat, a: seq<Byte>, b: seq<Byte>, exactA: bool, exactB: bool)
    requires Took(input, pos, mid, a, exactA) && Took(input, mid, end, b, exactB)
    ensures Took(input, pos, end, a + b, exactA && exactB)
  {
    if exactA && exactB && end <= |input| {
      assert input[pos..end] == input[pos..mid] + input[mid..end];
    }
  }

  lemma TookNothing(input: seq<Byte>, pos: nat)
    ensures Took(input, pos, pos, [], true)
  {
  }

  lemma TookLess(input: seq<Byte>, pos: nat, end: nat, bytes: seq<Byte>, exact: bool, less: bool)
    requires Took(input, pos, end, bytes, exact) && (less ==> exact)
    ensures Took(input, pos, end, bytes, less)
  {
  }

  /** Well-typed, without an array whose format is damaged. */
  predicate GoodBase(base: Base, v: Value)
  {
    TypedBase(base, v, true) && !DamagedBase(Deserialize, base, v)
  }

  predicate GoodList(base: Base, vs: seq<Value>)
  {
    (forall i :: 0 <= i < |vs| ==> TypedBase(base, vs[i], true)) && !DamagedList(Deserialize, base, vs)
  }

  predicate GoodField(base: Base, kind: Kind, v: Value)
  {
    TypedField(base, kind, v, true) && !DamagedField(Deserialize, base, kind, v)
  }

  predicate GoodFields(fs: seq<Field>, o: Value)
  {
    TypedFields(fs, o, true) && !DamagedFields(Deserialize, fs, o)
  }

  predicate NoBool(base: Base)
    decreases base
  {
    match base
    case Prim(t) => !t.Bool?
    case Text => true
    case Embedded(spec) => NoBools(spec.fields)
  }

  predicate NoBools(fs: seq<Field>)
    decreases fs
  {
    forall i :: 0 <= i < |fs| ==> NoBool(fs[i].base)
  }

  lemma NoBoolsSplit(fs: seq<Field>, k: nat)
    requires k <= |fs|
    ensures NoBools(fs) <==> NoBools(fs[..k]) && NoBools(fs[k..])
  {
    assert forall i :: 0 <= i < |fs[k..]| ==> fs[k..][i] == fs[k + i];
    if NoBools(fs[..k]) && NoBools(fs[k..]) {
      forall i | 0 <= i < |fs| ensures NoBool(fs[i].base) {
        if i < k {
          assert fs[..k][i] == fs[i];
        } else {
          assert fs[k..][i - k] == fs[i];
        }
      }
    }
  }

  /** `start = end; end += amount` over any input. */
  lemma CursorMoves(amount: Amount, st: State, env: Env, rest: seq<Stmt>) returns (st': State)
    ensures st' == st.(start := st.end, end := st.end + AmountOf(amount, st))
    ensures Exec([StartEnd, Advance(amount)] + rest, st, env) == Exec(rest, st', env)
    ensures Took(env.input, st.end, st'.end, Sliced(st', env.input), true)
  {
    var st1 := st.(start := st.end);
    st' := st1.(end := st1.end + AmountOf(amount, st1));
    assert AmountOf(amount, st1) == AmountOf(amount, st);
    assert Run(StartEnd, st, env) == Some(st1);
    assert Run(Advance(amount), st1, env) == Some(st');
    ExecTwo(StartEnd, Advance(amount), st, st1, env);
    ExecAppend([StartEnd, Advance(amount)], rest, st, env);
  }

  // ---------------------------------------------------------------- numbers

  lemma NumberRestored(t: Simple, bs: seq<Byte>)
    requires |bs| == Width(Code(t))
    ensures EncodeBase(Prim(t), Num(NumOf(Code(t), bs))) == bs
  {
    hide LE, UnLE;
    LittleEndianRestored(bs);
  }

  lemma PrimSize(t: Simple, v: Value)
    ensures |EncodeBase(Prim(t), v)| <= Width(Code(t))
  {
  }

  lemma {:induction false} ListSize(t: Simple, vs: seq<Value>)
    ensures |EncodeList(Prim(t), vs)| <= Width(Code(t)) * |vs|
  {
    if vs != [] {
      ListSize(t, vs[1..]);
      PrimSize(t, vs[0]);
      assert Width(Code(t)) * |vs| == Width(Code(t)) + Width(Code(t)) * |vs[1..]|;
    }
  }

  lemma UnpackedHead(c: char, items: seq<Item>, bs: seq<Byte>)
    requires UnpackItems([Number(c)] + items, bs).Some?
    ensures |bs| >= Width(c) && UnpackItems(items, bs[Width(c)..]).Some?
    ensures UnpackItems([Number(c)] + items, bs).value == [Num(NumOf(c, bs[..Width(c)]))] + UnpackItems(items, bs[Width(c)..]).value
  {
    var all := [Number(c)] + items;
    assert all[1..] == items && all[0] == Number(c);
  }

  /** What an array format unpacks encodes to the unpacked bytes. */
  lemma {:induction false} ListRestored(t: Simple, k: nat, bs: seq<Byte>)
    requires UnpackItems(Repeat(Number(Code(t)), k), bs).Some?
    ensures var vs := UnpackItems(Repeat(Number(Code(t)), k), bs).value;
      |vs| == k && |bs| == Width(Code(t)) * k && EncodeList(Prim(t), vs) == bs
  {
    hide UnpackItems, EncodeBase, EncodeList, NumOf, Code, Width, CalcSize, Repeat;
    RepeatSize(Code(t), k);
    UnpackedCount(Repeat(Number(Code(t)), k), bs);
    RepeatLength(Number(Code(t)), k);
    if k > 0 {
      var rest := ListTail(t, k, bs);
      ListRestored(t, k - 1, rest);
      ListHeadRestored(t, k, bs, rest);
    } else {
      assert bs == [];
      EmptyRestored(t);
      NothingUnpacks();
    }
  }

  lemma ListTail(t: Simple, k: nat, bs: seq<Byte>) returns (rest: seq<Byte>)
    requires k > 0 && UnpackItems(Repeat(Number(Code(t)), k), bs).Some?
    ensures |bs| >= Width(Code(t)) && rest == bs[Width(Code(t))..]
    ensures UnpackItems(Repeat(Number(Code(t)), k - 1), rest).Some?
    ensures UnpackItems(Repeat(Number(Code(t)), k), bs).value
            == [Num(NumOf(Code(t), bs[..Width(Code(t))]))] + UnpackItems(Repeat(Number(Code(t)), k - 1), rest).value
  {
    hide UnpackItems, NumOf, Code, Width, Repeat;
    RepeatCons(Number(Code(t)), k);
    UnpackedHead(Code(t), Repeat(Number(Code(t)), k - 1), bs);
    rest := bs[Width(Code(t))..];
  }

  lemma ListHeadRestored(t: Simple, k: nat, bs: seq<Byte>, rest: seq<Byte>)
    requires k > 0 && |bs| >= Width(Code(t)) && rest == bs[Width(Code(t))..]
    requires UnpackItems(Repeat(Number(Code(t)), k), bs).Some? && UnpackItems(Repeat(Number(Code(t)), k - 1), rest).Some?
    requires UnpackItems(Repeat(Number(Code(t)), k), bs).value
            == [Num(NumOf(Code(t), bs[..Width(Code(t))]))] + UnpackItems(Repeat(Number(Code(t)), k - 1), rest).value
    requires EncodeList(Prim(t), UnpackItems(Repeat(Number(Code(t)), k - 1), rest).value) == rest
    ensures EncodeList(Prim(t), UnpackItems(Repeat(Number(Code(t)), k), bs).value) == bs
  {
    hide UnpackItems, EncodeBase, EncodeList, NumOf, Code, Width, Repeat;
    var w := Width(Code(t));
    NumberRestored(t, bs[..w]);
    ListCons(Prim(t), Num(NumOf(Code(t), bs[..w])), UnpackItems(Repeat(Number(Code(t)), k - 1), rest).value);
    assert bs == bs[..w] + rest;
  }

  lemma RepeatLength(x: Item, k: nat)
    ensures |Repeat(x, k)| == k && (k == 0 ==> Repeat(x, k) == [])
  {
  }

  lemma EmptyRestored(t: Simple)
    ensures EncodeList(Prim(t), []) == []
  {
  }

  lemma {:induction false} ListNumbers(c: char, k: nat, bs: seq<Byte>, i: nat)
    requires UnpackItems(Repeat(Number(c), k), bs).Some? && i < |UnpackItems(Repeat(Number(c), k), bs).value| == k
    ensures var v := UnpackItems(Repeat(Number(c), k), bs).value[i]; v.Num? && InRange(c, v.n)
    decreases k
  {
    hide UnpackItems, InRange;
    RepeatCons(Number(c), k);
    UnpackedHead(c, Repeat(Number(c), k - 1), bs);
    if i > 0 {
      UnpackedCount(Repeat(Number(c), k - 1), bs[Width(c)..]);
      ListNumbers(c, k - 1, bs[Width(c)..], i - 1);
    }
  }

  lemma {:induction false} TruthsLength(vs: seq<Value>)
    requires TruthAll(vs).Some?
    ensures |TruthAll(vs).value| == |vs|
    ensures forall v <- TruthAll(vs).value :: v.Num? && 0 <= v.n <= 1
  {
    if vs != [] {
      TruthsLength(vs[1..]);
    }
  }

  // ---------------------------------------------------------------- strings, byte arrays and arrays of numbers

  lemma LengthTaken(p: Path, isString: bool, st: State, env: Env, rest: seq<Stmt>) returns (st': State)
    requires Exec(LenCode(p, isString, Deserialize) + rest, st, env).Some?
    ensures st'.vars == st.vars && st'.end == st.end + 4 && st'.length < UINT32_LIMIT
    ensures Exec(LenCode(p, isString, Deserialize) + rest, st, env) == Exec(rest, st', env)
    ensures Took(env.input, st.end, st'.end, LE(st'.length, 4), true)
  {
    assert LenCode(p, isString, Deserialize) + rest == [StartEnd, Advance(Const(4))] + ([ReadLength] + rest);
    var st1 := CursorMoves(Const(4), st, env, [ReadLength] + rest);
    ExecAppend([ReadLength], rest, st1, env);
    ExecSingle(ReadLength, st1, env);
    var bs := Sliced(st1, env.input);
    LittleEndianRestored(bs);
    assert Modulus('I') == UINT32_LIMIT;
    st' := st1.(length := UnLE(bs));
  }

  lemma SliceTaken(p: Path, amount: Amount, st: State, env: Env, depth: nat, counter: nat) returns (st': State, b: seq<Byte>)
    requires Assignable(st.vars, p, depth, counter)
    ensures Exec([StartEnd, Advance(amount), Slice(p)], st, env) == Some(st')
    ensures AssignedTo(st.vars, st'.vars, p, Bytes(b), depth, counter) && st'.end == st.end + AmountOf(amount, st)
    ensures Took(env.input, st.end, st'.end, b, true)
  {
    var st1 := CursorMoves(amount, st, env, [Slice(p)]);
    assert [StartEnd, Advance(amount)] + [Slice(p)] == [StartEnd, Advance(amount), Slice(p)];
    b := Sliced(st1, env.input);
    var vars' := StoreAssigns(st1.vars, p, Bytes(b), depth, counter);
    st' := st1.(vars := vars');
    ExecSingle(Slice(p), st1, env);
  }

  lemma SlicedWhole(input: seq<Byte>, pos: nat, n: nat, b: seq<Byte>)
    requires Took(input, pos, pos + n, b, true)
    ensures |b| <= n && (pos + n <= |input| ==> |b| == n)
  {
  }

  /** A string, or a byte array of variable length. */
  lemma StringTaken(bytes: bool, kind: Kind, p: Path, inContext: bool, st: State, env: Env, depth: nat, counter: nat)
    returns (st': State, b: seq<Byte>)
    requires !kind.FixedLength? && Assignable(st.vars, p, depth, counter)
    requires Exec(StringGen(bytes, kind, p, inContext, counter, Deserialize).code, st, env).Some?
    ensures Exec(StringGen(bytes, kind, p, inContext, counter, Deserialize).code, st, env) == Some(st')
    ensures AssignedTo(st.vars, st'.vars, p, Bytes(b), depth, counter)
    ensures Took(env.input, st.end, st'.end, LE(|b|, 4) + b, true) && |b| < UINT32_LIMIT
  {
    var slice := [StartEnd, Advance(LengthVar), Slice(p)];
    assert StringGen(bytes, kind, p, inContext, counter, Deserialize).code == LenCode(p, true, Deserialize) + slice;
    var st1 := LengthTaken(p, true, st, env, slice);
    st', b := SliceTaken(p, LengthVar, st1, env, depth, counter);
    TookBoth(env.input, st.end, st1.end, st'.end, LE(st1.length, 4), b, true, true);
    SlicedWhole(env.input, st1.end, st1.length, b);
  }

  lemma FixedBytesTaken(n: nat, p: Path, st: State, env: Env, depth: nat, counter: nat) returns (st': State, b: seq<Byte>)
    requires Assignable(st.vars, p, depth, counter)
    ensures Exec(StringGen(true, FixedLength(n), p, true, counter, Deserialize).code, st, env) == Some(st')
    ensures AssignedTo(st.vars, st'.vars, p, Bytes(b), depth, counter) && Took(env.input, st.end, st'.end, b, true)
    ensures st'.end <= |env.input| ==> |b| == n
  {
    assert StringGen(true, FixedLength(n), p, true, counter, Deserialize).code == [StartEnd, Advance(Const(n)), Slice(p)];
    st', b := SliceTaken(p, Const(n), st, env, depth, counter);
    SlicedWhole(env.input, st.end, n, b);
  }

  /** The bool conversion of a list that has been stored. */
  lemma MappedBools(p: Path, vs: seq<Value>, st: State, env: Env, depth: nat, counter: nat) returns (st': State, vs': seq<Value>)
    requires p.attrs != [] && Assignable(st.vars, p, depth, counter) && Lookup(st.vars, p) == Some(List(vs))
    requires Exec([MapBool(p)], st, env).Some?
    ensures Exec([MapBool(p)], st, env) == Some(st') && st' == st.(vars := st'.vars)
    ensures AssignedTo(st.vars, st'.vars, p, List(vs'), depth, counter) && |vs'| == |vs|
    ensures forall v <- vs' :: v.Num? && 0 <= v.n <= 1
  {
    ExecSingle(MapBool(p), st, env);
    TruthsLength(vs);
    vs' := TruthAll(vs).value;
    var vars' := StoreAssigns(st.vars, p, List(vs'), depth, counter);
    st' := st.(vars := vars');
  }

  /** A list of numbers goes into its slot, converted when they are bools. */
  lemma ListTaken(t: Simple, p: Path, read: Stmt, k: nat, bs: seq<Byte>, st: State, env: Env, depth: nat, counter: nat)
    returns (st': State, vs: seq<Value>)
    requires p.attrs != [] && Assignable(st.vars, p, depth, counter)
    requires UnpackItems(Repeat(Number(Code(t)), k), bs).Some?
    requires Run(read, st, env) == Bound(st, Store(st.vars, p, List(UnpackItems(Repeat(Number(Code(t)), k), bs).value)))
    requires Exec([read] + (if t.Bool? then [MapBool(p)] else []), st, env).Some?
    ensures Exec([read] + (if t.Bool? then [MapBool(p)] else []), st, env) == Some(st')
    ensures st' == st.(vars := st'.vars) && AssignedTo(st.vars, st'.vars, p, List(vs), depth, counter)
    ensures |vs| == k && |EncodeList(Prim(t), vs)| <= |bs| && (!t.Bool? ==> EncodeList(Prim(t), vs) == bs)
    ensures |bs| == Width(Code(t)) * k && forall i :: 0 <= i < |vs| ==> TypedBase(Prim(t), vs[i], true)
  {
    hide EncodeList, UnpackItems, Exec, Run, Step, Lookup, Target, Store;
    var read0 := UnpackItems(Repeat(Number(Code(t)), k), bs).value;
    ListRestored(t, k, bs);
    forall i | 0 <= i < |read0| ensures read0[i].Num? && InRange(Code(t), read0[i].n) {
      ListNumbers(Code(t), k, bs, i);
    }
    var vars1 := StoreAssigns(st.vars, p, List(read0), depth, counter);
    var st1 := st.(vars := vars1);
    UpdatedLookup(st.vars, vars1, p, List(read0), depth, counter);
    ExecAppend([read], if t.Bool? then [MapBool(p)] else [], st, env);
    ExecSingle(read, st, env);
    if t.Bool? {
      st', vs := MappedBools(p, read0, st1, env, depth, counter);
      UpdatedTwice(st.vars, vars1, st'.vars, Target(st.vars, p), List(read0), List(vs), depth, counter);
      ListSize(t, vs);
    } else {
      NothingRun(st1, env);
      st', vs := st1, read0;
    }
  }

  lemma NothingRun(st: State, env: Env)
    ensures Exec([], st, env) == Some(st)
  {
  }

  lemma FixedArrayTaken(t: Simple, n: nat, p: Path, st: State, env: Env, depth: nat, counter: nat)
    returns (st': State, vs: seq<Value>)
    requires p.attrs != [] && Assignable(st.vars, p, depth, counter)
    requires Exec(SimpleArrayGen(t, FixedLength(n), p, counter, Deserialize).code, st, env).Some?
    ensures Exec(SimpleArrayGen(t, FixedLength(n), p, counter, Deserialize).code, st, env) == Some(st')
    ensures AssignedTo(st.vars, st'.vars, p, List(vs), depth, counter)
    ensures Took(env.input, st.end, st'.end, EncodeList(Prim(t), vs), !t.Bool?)
    ensures forall i :: 0 <= i < |vs| ==> TypedBase(Prim(t), vs[i], true)
    ensures st'.end <= |env.input| ==> |vs| == n && !AdjacentNines(Dec(n))
  {
    hide Exec, Run, Step, ExecFor, ExecRepeat, Get, Set, Lookup, Target, Store, EncodeList, UnpackItems, Dec, Reduce, Took, AdjacentNines, ReducedCount, Sliced, CalcSizeOf, Repeat, TypedBase;
    var pattern, k := Dec(n) + [Code(t)], ReducedCount(n);
    ReducedCountedItems(n, Code(t));
    var read := ReadStar(Reduce(pattern), p);
    var rest := [read] + (if t.Bool? then [MapBool(p)] else []);
    var amount := Const(CalcSizeOf(pattern));
    assert SimpleArrayGen(t, FixedLength(n), p, counter, Deserialize).code == [StartEnd, Advance(amount)] + rest;
    var st1 := CursorMoves(amount, st, env, rest);
    StarUnpacks(t, k, Reduce(pattern), p, rest, st1, env);
    var bs := Sliced(st1, env.input);
    st', vs := ListTaken(t, p, read, k, bs, st1, env, depth, counter);
    FormatSize(n, Code(t));
    SlicedWhole(env.input, st.end, Width(Code(t)) * n, bs);
    CountFits(t, n, bs);
    TookAs(env.input, st.end, st1.end, bs, EncodeList(Prim(t), vs), !t.Bool?);
  }

  lemma TookAs(input: seq<Byte>, pos: nat, end: nat, bs: seq<Byte>, bytes: seq<Byte>, exact: bool)
    requires Took(input, pos, end, bs, true) && |bytes| <= |bs| && (exact ==> bytes == bs)
    ensures Took(input, pos, end, bytes, exact)
  {
  }

  /** Only an undamaged count accounts for all bytes of the array. */
  lemma CountFits(t: Simple, n: nat, bs: seq<Byte>)
    requires |bs| == Width(Code(t)) * ReducedCount(n)
    ensures |bs| == Width(Code(t)) * n ==> ReducedCount(n) == n && !AdjacentNines(Dec(n))
  {
    hide AdjacentNines, ReducedCount, Dec;
    CountKeptIffNoAdjacentNines(n);
    if ReducedCount(n) < n {
      Narrower(Width(Code(t)), ReducedCount(n), n);
    }
  }

  lemma FormatSize(n: nat, c: char)
    requires IsCode(c)
    ensures CalcSizeOf(Dec(n) + [c]) == Width(c) * n
  {
    hide Dec;
    ReducedCountedItems(n, c);
    RepeatSize(c, n);
  }

  lemma StarUnpacks(t: Simple, k: nat, pattern: string, p: Path, rest: seq<Stmt>, st: State, env: Env)
    requires Items(pattern) == Some(Repeat(Number(Code(t)), k)) && rest != [] && rest[0] == ReadStar(pattern, p)
    requires Exec(rest, st, env).Some?
    ensures var vs := UnpackItems(Repeat(Number(Code(t)), k), Sliced(st, env.input));
      vs.Some? && Run(ReadStar(pattern, p), st, env) == Bound(st, Store(st.vars, p, List(vs.value)))
  {
  }

  lemma VarArrayTaken(t: Simple, p: Path, st: State, env: Env, depth: nat, counter: nat)
    returns (st': State, vs: seq<Value>)
    requires p.attrs != [] && Assignable(st.vars, p, depth, counter)
    requires Exec(SimpleArrayGen(t, VarLength, p, counter, Deserialize).code, st, env).Some?
    ensures Exec(SimpleArrayGen(t, VarLength, p, counter, Deserialize).code, st, env) == Some(st')
    ensures AssignedTo(st.vars, st'.vars, p, List(vs), depth, counter)
    ensures Took(env.input, st.end, st'.end, LE(|vs|, 4) + EncodeList(Prim(t), vs), !t.Bool?)
    ensures |vs| < UINT32_LIMIT && forall i :: 0 <= i < |vs| ==> TypedBase(Prim(t), vs[i], true)
  {
    hide Exec, Run, Step, ExecFor, ExecRepeat, Get, Set, Lookup, Target, Store, EncodeList, UnpackItems;
    var read := ReadPattern(p);
    var reading := [read] + (if t.Bool? then [MapBool(p)] else []);
    var tail := [StartEnd, Advance(CalcSizeOfPattern)] + reading;
    var rest := [SetPattern(Code(t))] + tail;
    assert SimpleArrayGen(t, VarLength, p, counter, Deserialize).code == LenCode(p, false, Deserialize) + rest;
    var st1 := LengthTaken(p, false, st, env, rest);
    var st2 := PatternSet(t, tail, st1, env);
    var st3 := CursorMoves(CalcSizeOfPattern, st2, env, reading);
    PatternUnpacks(t, p, reading, st3, env);
    st', vs := ListTaken(t, p, read, st1.length, Sliced(st3, env.input), st3, env, depth, counter);
    TookBoth(env.input, st.end, st1.end, st'.end, LE(|vs|, 4), EncodeList(Prim(t), vs), true, !t.Bool?);
  }

  lemma PatternSet(t: Simple, tail: seq<Stmt>, st: State, env: Env) returns (st': State)
    ensures st' == st.(pattern := (Code(t), st.length))
    ensures Exec([SetPattern(Code(t))] + tail, st, env) == Exec(tail, st', env)
  {
    st' := st.(pattern := (Code(t), st.length));
    ExecAppend([SetPattern(Code(t))], tail, st, env);
    ExecSingle(SetPattern(Code(t)), st, env);
  }

  lemma PatternUnpacks(t: Simple, p: Path, rest: seq<Stmt>, st: State, env: Env)
    requires st.pattern.0 == Code(t) && rest != [] && rest[0] == ReadPattern(p)
    requires Exec(rest, st, env).Some?
    ensures var vs := UnpackItems(Repeat(Number(Code(t)), st.pattern.1), Sliced(st, env.input));
      vs.Some? && Run(ReadPattern(p), st, env) == Bound(st, Store(st.vars, p, List(vs.value)))
  {
  }

  // ---------------------------------------------------------------- chunks of simple fields

  /** A record stays one, with the same slots. */
  predicate KeepsRecord(o: Value, o': Value, b: seq<string>)
  {
    Get(o, b).Some? && Get(o, b).value.Rec? ==>
      Get(o', b).Some? && Get(o', b).value.Rec? && Get(o', b).value.m.Keys == Get(o, b).value.m.Keys
  }

  /** Only the slots of these fields changed; records outside of them keep their slots. */
  ghost predicate Touched(fs: seq<Field>, o: Value, o': Value)
  {
    && (forall i :: 0 <= i < |fs| ==> Get(o', fs[i].name).Some?)
    && (forall b :: (forall i :: 0 <= i < |fs| ==> Apart(fs[i].name, b)) ==> Get(o', b) == Get(o, b))
    && forall b :: (forall i :: 0 <= i < |fs| ==> !(fs[i].name <= b)) ==> KeepsRecord(o, o', b)
  }

  lemma {:induction false} SetKeepsRecord(v: Value, a: seq<string>, b: seq<string>, x: Value)
    requires Set(v, a, x).Some? && !(a <= b)
    ensures KeepsRecord(v, Set(v, a, x).value, b)
    decreases |a|
  {
    if b != [] && a[0] == b[0] {
      SetKeepsRecord(v.m[a[0]], a[1..], b[1..], x);
    }
  }

  lemma EarlierKept(a: seq<Field>, b: seq<Field>, o1: Value, o2: Value)
    requires AllApart(a + b) && Touched(b, o1, o2)
    ensures forall i :: 0 <= i < |a| ==> Get(o2, a[i].name) == Get(o1, a[i].name)
  {
    hide Apart, Get, KeepsRecord;
    var fs := a + b;
    forall i | 0 <= i < |a| ensures Get(o2, a[i].name) == Get(o1, a[i].name) {
      forall j | 0 <= j < |b| ensures Apart(b[j].name, a[i].name) {
        assert fs[i] == a[i] && fs[|a| + j] == b[j];
        assert Apart(fs[i].name, fs[|a| + j].name);
        ApartBoth(a[i].name, b[j].name);
      }
    }
  }

  lemma ApartBoth(a: seq<string>, b: seq<string>)
    requires Apart(a, b)
    ensures Apart(b, a)
  {
  }

  lemma OthersKeptTwice(a: seq<Field>, b: seq<Field>, o: Value, o1: Value, o2: Value)
    requires Touched(a, o, o1) && Touched(b, o1, o2)
    ensures forall c :: (forall i :: 0 <= i < |a + b| ==> Apart((a + b)[i].name, c)) ==> Get(o2, c) == Get(o, c)
    ensures forall c :: (forall i :: 0 <= i < |a + b| ==> !((a + b)[i].name <= c)) ==> KeepsRecord(o, o2, c)
  {
    hide Apart, Get, KeepsRecord;
    var fs := a + b;
    assert forall i :: 0 <= i < |a| ==> a[i] == fs[i];
    assert forall i :: 0 <= i < |b| ==> b[i] == fs[|a| + i];
    forall c | forall i :: 0 <= i < |fs| ==> !(fs[i].name <= c) ensures KeepsRecord(o, o2, c) {
      RecordKeptTwice(o, o1, o2, c);
    }
  }

  lemma RecordKeptTwice(o: Value, o1: Value, o2: Value, c: seq<string>)
    requires KeepsRecord(o, o1, c) && KeepsRecord(o1, o2, c)
    ensures KeepsRecord(o, o2, c)
  {
  }

  lemma TouchedBoth(a: seq<Field>, b: seq<Field>, o: Value, o1: Value, o2: Value)
    requires AllApart(a + b) && Touched(a, o, o1) && Touched(b, o1, o2)
    ensures Touched(a + b, o, o2)
    ensures forall i :: 0 <= i < |a| ==> Get(o2, a[i].name) == Get(o1, a[i].name)
  {
    hide Apart, Get, KeepsRecord, AllApart;
    EarlierKept(a, b, o1, o2);
    OthersKeptTwice(a, b, o, o1, o2);
    var fs := a + b;
    forall i | 0 <= i < |fs| ensures Get(o2, fs[i].name).Some? {
      if i < |a| {
        assert fs[i] == a[i];
      } else {
        assert fs[i] == b[i - |a|];
      }
    }
  }

  lemma AssignedTouches(f: Field, o: Value, x: Value)
    requires Get(o, f.name).Some?
    ensures Touched([f], o, Assigned(o, f.name, x)) && Get(Assigned(o, f.name, x), f.name) == Some(x)
  {
    GetAfterSet(o, f.name, x);
    assert [f][0] == f;
    forall b | forall i :: 0 <= i < |[f]| ==> Apart([f][i].name, b) ensures Get(Assigned(o, f.name, x), b) == Get(o, b) {
      assert Apart([f][0].name, b);
      SetElsewhere(o, f.name, b, x);
    }
    forall b | forall i :: 0 <= i < |[f]| ==> !([f][i].name <= b) ensures KeepsRecord(o, Assigned(o, f.name, x), b) {
      assert !([f][0].name <= b);
      SetKeepsRecord(o, f.name, b, x);
    }
  }

  lemma UntouchedIsTouched(fs: seq<Field>, o: Value)
    requires forall i :: 0 <= i < |fs| ==> Get(o, fs[i].name).Some?
    ensures Touched(fs, o, o)
  {
  }

  /** Whatever was unpacked is stored. */
  lemma {:induction false} AllStored(vars: map<Var, Slot>, base: Path, fs: seq<Field>, o: Value, vs: seq<Value>) returns (o': Value)
    requires Lookup(vars, base) == Some(o) && Settable(fs, o) && AllApart(fs) && |vs| == |fs|
    ensures StoreAll(vars, FieldPaths(base, fs), vs) == Some(StoreAt(vars, Target(vars, base), o'))
    ensures Touched(fs, o, o') && forall i :: 0 <= i < |fs| ==> Get(o', fs[i].name) == Some(vs[i])
    decreases fs
  {
    hide Set, Get, Lookup, Target, Store, Touched, Apart, Assigned, AllApart, StoreAt;
    if fs == [] {
      NothingStored(vars, base, o);
      o' := o;
    } else {
      var t, x := Target(vars, base), vs[0];
      var o1 := Assigned(o, fs[0].name, x);
      StoreDot(vars, base, fs[0].name, o, x);
      SettableTail(fs, o, x);
      LookupStored(vars, base, o1);
      o' := AllStored(StoreAt(vars, t, o1), base, fs[1..], o1, vs[1..]);
      StoreAtTwice(vars, t, o1, o');
      assert FieldPaths(base, fs) == [base.Dot(fs[0].name)] + FieldPaths(base, fs[1..]);
      FirstAssigned(fs, o, o', vs);
    }
  }

  lemma NothingStored(vars: map<Var, Slot>, base: Path, o: Value)
    requires Lookup(vars, base) == Some(o)
    ensures StoreAt(vars, Target(vars, base), o) == vars && Touched([], o, o)
  {
    var t := Target(vars, base);
    SetSame(vars[t.root].v, t.attrs);
  }

  lemma FirstAssigned(fs: seq<Field>, o: Value, o': Value, vs: seq<Value>)
    requires fs != [] && |vs| == |fs| && Get(o, fs[0].name).Some? && AllApart(fs)
    requires Touched(fs[1..], Assigned(o, fs[0].name, vs[0]), o')
    requires forall i :: 0 <= i < |fs[1..]| ==> Get(o', fs[1..][i].name) == Some(vs[1..][i])
    ensures Touched(fs, o, o') && forall i :: 0 <= i < |fs| ==> Get(o', fs[i].name) == Some(vs[i])
  {
    hide Set, Get, Touched, Apart, Assigned;
    var o1 := Assigned(o, fs[0].name, vs[0]);
    AssignedTouches(fs[0], o, vs[0]);
    assert [fs[0]] + fs[1..] == fs;
    TouchedBoth([fs[0]], fs[1..], o, o1, o');
    assert [fs[0]][0] == fs[0];
    forall i | 0 <= i < |fs| ensures Get(o', fs[i].name) == Some(vs[i]) {
      if i > 0 {
        assert fs[1..][i - 1] == fs[i] && vs[1..][i - 1] == vs[i];
      }
    }
  }

  lemma {:induction false} FieldsRestored(fs: seq<Field>, bs: seq<Byte>, o: Value)
    requires forall i :: 0 <= i < |fs| ==> IsSimple(fs[i])
    requires UnpackItems(Numbers(StructPattern(fs)), bs).Some?
    requires var vs := UnpackItems(Numbers(StructPattern(fs)), bs).value;
      |vs| == |fs| && forall i :: 0 <= i < |fs| ==> Get(o, fs[i].name) == Some(vs[i])
    ensures EncodeFields(fs, o) == bs
  {
    if fs != [] {
      hide UnpackItems, EncodeFields, EncodeAt, StructPattern;
      var t := fs[0].base.t;
      var w := Width(Code(t));
      PatternCons(fs, o);
      UnpackedHead(Code(t), Numbers(StructPattern(fs[1..])), bs);
      var vs := UnpackItems(Numbers(StructPattern(fs)), bs).value;
      assert vs[1..] == UnpackItems(Numbers(StructPattern(fs[1..])), bs[w..]).value;
      forall i | 0 <= i < |fs[1..]| ensures Get(o, fs[1..][i].name) == Some(vs[1..][i]) {
        assert fs[1..][i] == fs[i + 1] && vs[1..][i] == vs[i + 1];
      }
      FieldsRestored(fs[1..], bs[w..], o);
      HeadRestored(fs, bs, o, vs[0]);
    } else {
      UnpackedCount(Numbers(StructPattern(fs)), bs);
    }
  }

  lemma HeadRestored(fs: seq<Field>, bs: seq<Byte>, o: Value, x: Value)
    requires fs != [] && IsSimple(fs[0]) && Get(o, fs[0].name) == Some(x)
    requires var w := Width(Code(fs[0].base.t)); |bs| >= w && x == Num(NumOf(Code(fs[0].base.t), bs[..w])) && EncodeFields(fs[1..], o) == bs[w..]
    ensures EncodeFields(fs, o) == bs
  {
    hide EncodeBase, NumOf, NumBytes, Get;
    var t := fs[0].base.t;
    var w := Width(Code(t));
    NumberRestored(t, bs[..w]);
    SimpleEncodes(Deserialize, fs[0], o, x);
    assert bs == bs[..w] + bs[w..];
  }

  lemma {:induction false} UnpackedCount(items: seq<Item>, bs: seq<Byte>)
    requires UnpackItems(items, bs).Some?
    ensures |UnpackItems(items, bs).value| == |items| && |bs| == CalcSize(items)
  {
    if items != [] {
      UnpackedCount(items[1..], bs[ItemSize(items[0])..]);
    }
  }

  lemma {:induction false} FieldsSize(fs: seq<Field>, o: Value)
    requires forall i :: 0 <= i < |fs| ==> IsSimple(fs[i])
    ensures |EncodeFields(fs, o)| <= CalcSize(Numbers(StructPattern(fs)))
  {
    if fs != [] {
      PatternCons(fs, o);
      FieldsSize(fs[1..], o);
      var t, rest := fs[0].base.t, Numbers(StructPattern(fs[1..]));
      assert ([Number(Code(t))] + rest)[1..] == rest;
      if Get(o, fs[0].name).Some? {
        SimpleEncodes(Deserialize, fs[0], o, Get(o, fs[0].name).value);
        PrimSize(t, Get(o, fs[0].name).value);
      }
    }
  }

  /** What the bool conversion makes of a number. */
  predicate Converted(f: Field, x: Option<Value>, y: Option<Value>)
  {
    if f.base == Prim(Bool) then y.Some? && y.value.Num? && 0 <= y.value.n <= 1 else y == x
  }

  /** The bool conversions change nothing but slots of the chunk. */
  lemma {:induction false} FixupsTouch(ctx: Path, fs: seq<Field>, st: State, env: Env, o: Value) returns (o': Value)
    requires forall i :: 0 <= i < |fs| ==> IsSimple(fs[i]) && fs[i].name != [] && Get(o, fs[i].name).Some?
    requires AllApart(fs) && Lookup(st.vars, ctx) == Some(o) && Exec(BoolFixups(ctx, fs), st, env).Some?
    ensures Exec(BoolFixups(ctx, fs), st, env) == Some(st.(vars := StoreAt(st.vars, Target(st.vars, ctx), o')))
    ensures Touched(fs, o, o') && (NoBools(fs) ==> o' == o)
    ensures forall i :: 0 <= i < |fs| ==> Converted(fs[i], Get(o, fs[i].name), Get(o', fs[i].name))
    decreases fs
  {
    hide Converted, Touched, Get, Set, Lookup, Target, Store, StoreAt, Exec, Apart, Assigned, AllApart;
    var t := Target(st.vars, ctx);
    if fs == [] {
      NothingStored(st.vars, ctx, o);
      NothingRun(st, env);
      o' := o;
    } else {
      var o1, st1 := FixupTouches(ctx, fs[0], BoolFixups(ctx, fs[1..]), st, env, o);
      AssignedApart(fs, o, o1);
      o' := FixupsTouch(ctx, fs[1..], st1, env, o1);
      StoreAtTwice(st.vars, t, o1, o');
      assert [fs[0]] + fs[1..] == fs;
      TouchedBoth([fs[0]], fs[1..], o, o1, o');
      NoBoolsSplit(fs, 1);
      ConvertedAll(fs, o, o1, o');
    }
  }

  lemma ConvertedAll(fs: seq<Field>, o: Value, o1: Value, o': Value)
    requires fs != [] && AllApart(fs) && Touched([fs[0]], o, o1) && Converted(fs[0], Get(o, fs[0].name), Get(o1, fs[0].name))
    requires Get(o', fs[0].name) == Get(o1, fs[0].name)
    requires var rest := fs[1..]; forall i :: 0 <= i < |rest| ==> Converted(rest[i], Get(o1, rest[i].name), Get(o', rest[i].name))
    ensures forall i :: 0 <= i < |fs| ==> Converted(fs[i], Get(o, fs[i].name), Get(o', fs[i].name))
  {
    hide Converted, Get;
    forall i | 0 < i < |fs| ensures Converted(fs[i], Get(o, fs[i].name), Get(o', fs[i].name)) {
      assert fs[1..][i - 1] == fs[i];
      assert Apart(fs[0].name, fs[i].name);
      assert [fs[0]][0] == fs[0];
    }
  }

  lemma AssignedApart(fs: seq<Field>, o: Value, o1: Value)
    requires fs != [] && AllApart(fs) && Touched([fs[0]], o, o1)
    requires forall i :: 0 <= i < |fs| ==> IsSimple(fs[i]) && fs[i].name != [] && Get(o, fs[i].name).Some?
    ensures var rest := fs[1..];
      AllApart(rest) && forall i :: 0 <= i < |rest| ==> IsSimple(rest[i]) && rest[i].name != [] && Get(o1, rest[i].name).Some?
  {
    var rest := fs[1..];
    forall i | 0 <= i < |rest| ensures Get(o1, rest[i].name) == Get(o, rest[i].name) && rest[i] == fs[i + 1] {
      assert Apart(fs[0].name, fs[i + 1].name);
      assert [fs[0]][0] == fs[0];
    }
  }

  /** One field's conversion, when it has one. */
  lemma FixupTouches(ctx: Path, f: Field, rest: seq<Stmt>, st: State, env: Env, o: Value) returns (o': Value, st': State)
    requires f.name != [] && Get(o, f.name).Some? && Lookup(st.vars, ctx) == Some(o)
    requires Exec((if f.base == Prim(Bool) then [ToBool(ctx.Dot(f.name))] else []) + rest, st, env).Some?
    ensures st' == st.(vars := StoreAt(st.vars, Target(st.vars, ctx), o')) && Target(st'.vars, ctx) == Target(st.vars, ctx)
    ensures Lookup(st'.vars, ctx) == Some(o') && Holds(st.vars, Target(st.vars, ctx))
    ensures Exec((if f.base == Prim(Bool) then [ToBool(ctx.Dot(f.name))] else []) + rest, st, env) == Exec(rest, st', env)
    ensures Touched([f], o, o') && (f.base != Prim(Bool) ==> o' == o) && Converted(f, Get(o, f.name), Get(o', f.name))
  {
    var t := Target(st.vars, ctx);
    if f.base == Prim(Bool) {
      var fix := ToBool(ctx.Dot(f.name));
      ExecAppend([fix], rest, st, env);
      ExecSingle(fix, st, env);
      LookupDot(st.vars, ctx, f.name);
      var x := Truth(Get(o, f.name).value).value;
      StoreDot(st.vars, ctx, f.name, o, x);
      AssignedTouches(f, o, x);
      o' := Assigned(o, f.name, x);
    } else {
      assert [] + rest == rest;
      SetSame(st.vars[t.root].v, t.attrs);
      assert StoreAt(st.vars, t, o) == st.vars;
      o' := o;
      assert [f][0] == f;
      UntouchedIsTouched([f], o);
    }
    LookupStored(st.vars, ctx, o');
    st' := st.(vars := StoreAt(st.vars, t, o'));
  }

  lemma TouchedTwice(fs: seq<Field>, o: Value, o1: Value, o2: Value)
    requires Touched(fs, o, o1) && Touched(fs, o1, o2)
    ensures Touched(fs, o, o2)
  {
    forall b | forall i :: 0 <= i < |fs| ==> !(fs[i].name <= b) ensures KeepsRecord(o, o2, b) {
      assert KeepsRecord(o, o1, b) && KeepsRecord(o1, o2, b);
    }
  }

  lemma StructUnpacks(pattern: string, items: seq<Item>, ps: seq<Path>, rest: seq<Stmt>, st: State, env: Env)
    requires Items(pattern) == Some(items) && Exec([ReadStruct(pattern, ps)] + rest, st, env).Some?
    ensures UnpackItems(items, Sliced(st, env.input)).Some?
    ensures var vs := UnpackItems(items, Sliced(st, env.input)).value;
      StoreAll(st.vars, ps, vs).Some? &&
      Exec([ReadStruct(pattern, ps)] + rest, st, env) == Exec(rest, st.(vars := StoreAll(st.vars, ps, vs).value), env)
  {
    ExecAppend([ReadStruct(pattern, ps)], rest, st, env);
    ExecSingle(ReadStruct(pattern, ps), st, env);
  }

  lemma {:induction false} UnpackedNumbers(pattern: string, bs: seq<Byte>, i: nat)
    requires UnpackItems(Numbers(pattern), bs).Some? && i < |pattern| == |UnpackItems(Numbers(pattern), bs).value|
    ensures var v := UnpackItems(Numbers(pattern), bs).value[i]; v.Num? && InRange(pattern[i], v.n)
    decreases |pattern|
  {
    assert Numbers(pattern) == [Number(pattern[0])] + Numbers(pattern[1..]);
    UnpackedHead(pattern[0], Numbers(pattern[1..]), bs);
    if i > 0 {
      UnpackedCount(Numbers(pattern[1..]), bs[Width(pattern[0])..]);
      UnpackedNumbers(pattern[1..], bs[Width(pattern[0])..], i - 1);
    }
  }

  /** Numbers of their types, bools converted, make the chunk well-typed. */
  lemma ChunkIsGood(fs: seq<Field>, bs: seq<Byte>, o: Value, o': Value)
    requires forall i :: 0 <= i < |fs| ==> IsSimple(fs[i])
    requires UnpackItems(Numbers(StructPattern(fs)), bs).Some? && |UnpackItems(Numbers(StructPattern(fs)), bs).value| == |fs|
    requires forall i :: 0 <= i < |fs| ==> Get(o, fs[i].name) == Some(UnpackItems(Numbers(StructPattern(fs)), bs).value[i])
    requires forall i :: 0 <= i < |fs| ==> Converted(fs[i], Get(o, fs[i].name), Get(o', fs[i].name))
    ensures GoodFields(fs, o')
  {
    hide UnpackItems, Get;
    forall i | 0 <= i < |fs|
      ensures Get(o', fs[i].name).Some? && TypedField(fs[i].base, fs[i].kind, Get(o', fs[i].name).value, true)
    {
      UnpackedNumbers(StructPattern(fs), bs, i);
      assert TypedBase(fs[i].base, Get(o', fs[i].name).value, true);
    }
    SimpleUndamaged(fs, o');
  }

  /** Unpacking a chunk and converting its bools. */
  lemma ChunkStored(fs: seq<Field>, base: Path, ctx: Path, st: State, env: Env, o: Value) returns (o': Value)
    requires forall i :: 0 <= i < |fs| ==> IsSimple(fs[i])
    requires Lookup(st.vars, base) == Some(o) && Lookup(st.vars, ctx) == Some(o)
    requires Target(st.vars, base) == Target(st.vars, ctx) && Settable(fs, o) && AllApart(fs)
    requires Exec([ReadStruct(Reduce(StructPattern(fs)), FieldPaths(base, fs))] + BoolFixups(ctx, fs), st, env).Some?
    ensures Exec([ReadStruct(Reduce(StructPattern(fs)), FieldPaths(base, fs))] + BoolFixups(ctx, fs), st, env)
            == Some(st.(vars := StoreAt(st.vars, Target(st.vars, ctx), o')))
    ensures Holds(st.vars, Target(st.vars, ctx)) && Touched(fs, o, o') && GoodFields(fs, o')
    ensures |EncodeFields(fs, o')| <= |Sliced(st, env.input)| && (NoBools(fs) ==> EncodeFields(fs, o') == Sliced(st, env.input))
  {
    hide Exec, Run, Step, UnpackItems, StoreAll, Get, Set, Lookup, Target, EncodeFields, BoolFixups, Reduce, Sliced, Touched, GoodFields, Converted;
    var t, pattern, items := Target(st.vars, ctx), StructPattern(fs), Numbers(StructPattern(fs));
    ReduceIsLossless(pattern);
    StructUnpacks(Reduce(pattern), items, FieldPaths(base, fs), BoolFixups(ctx, fs), st, env);
    var vs := UnpackItems(items, Sliced(st, env.input)).value;
    UnpackedCount(items, Sliced(st, env.input));
    var o1 := AllStored(st.vars, base, fs, o, vs);
    LookupStored(st.vars, ctx, o1);
    FieldsRestored(fs, Sliced(st, env.input), o1);
    var st1 := st.(vars := StoreAt(st.vars, t, o1));
    SlotsAfter(fs, o, o1);
    o' := FixupsTouch(ctx, fs, st1, env, o1);
    StoreAtTwice(st.vars, t, o1, o');
    TouchedTwice(fs, o, o1, o');
    FieldsSize(fs, o');
    ChunkIsGood(fs, Sliced(st, env.input), o1, o');
  }

  lemma SlotsAfter(fs: seq<Field>, o: Value, o1: Value)
    requires Settable(fs, o) && Touched(fs, o, o1)
    ensures forall i :: 0 <= i < |fs| ==> fs[i].name != [] && Get(o1, fs[i].name).Some?
  {
  }

  /** What running code on the fields of an object did. */
  ghost predicate Filled(fs: seq<Field>, st: State, st': State, env: Env, t: Path, o: Value, o': Value, depth: nat, counter: nat)
  {
    && Updated(st.vars, st'.vars, t, o', depth, counter) && Touched(fs, o, o')
    && Took(env.input, st.end, st'.end, EncodeFields(fs, o'), NoBools(fs))
    && (st'.end <= |env.input| ==> GoodFields(fs, o'))
  }

  lemma ChunkTaken(fs: seq<Field>, ctx: Path, depth: nat, counter: nat, st: State, env: Env, o: Value) returns (st': State, o': Value)
    requires fs != [] && forall i :: 0 <= i < |fs| ==> IsSimple(fs[i])
    requires Anchored(st.vars, ctx, depth, counter) && Lookup(st.vars, ctx) == Some(o)
    requires Settable(fs, o) && AllApart(fs)
    requires Exec(SimpleGen(fs, ctx, counter, Deserialize).code, st, env).Some?
    ensures Exec(SimpleGen(fs, ctx, counter, Deserialize).code, st, env) == Some(st')
    ensures Filled(fs, st, st', env, Target(st.vars, ctx), o, o', depth, counter)
  {
    hide Exec, Run, Step, ExecFor, ExecRepeat, EncodeFields, BoolFixups, Reduce, Sliced, Touched, GoodFields;
    var base := if |fs| > 1 then Path(X, []) else ctx;
    assert Get(o, fs[0].name).Some? && fs[0].name != [];
    GetSomeIsRec(o, fs[0].name);
    var st1 := ObjectPrologue(ctx, |fs| > 1, st, env, o, depth, counter, ReadChunkCode(fs, base, ctx));
    CodeOfChunk(fs, base, ctx);
    var amount := Const(CalcSizeOf(Reduce(StructPattern(fs))));
    var st2 := CursorMoves(amount, st1, env, [ReadStruct(Reduce(StructPattern(fs)), FieldPaths(base, fs))] + BoolFixups(ctx, fs));
    o' := ChunkStored(fs, base, ctx, st2, env, o);
    st' := st2.(vars := StoreAt(st2.vars, Target(st2.vars, ctx), o'));
    FillsSlots(fs, ctx, st, st1, st2, st', env, o, o', depth, counter);
  }

  lemma GetSomeIsRec(o: Value, name: seq<string>)
    requires name != [] && Get(o, name).Some?
    ensures o.Rec?
  {
  }

  lemma FillsSlots(fs: seq<Field>, ctx: Path, st: State, st1: State, st2: State, st': State, env: Env, o: Value, o': Value, depth: nat, counter: nat)
    requires Anchored(st.vars, ctx, depth, counter) && Lookup(st.vars, ctx) == Some(o)
    requires st1 == st.(vars := st1.vars) && SameStable(st.vars, st1.vars, depth, counter) && st2.vars == st1.vars
    requires Target(st1.vars, ctx) == Target(st.vars, ctx) && Holds(st1.vars, Target(st.vars, ctx))
    requires st' == st2.(vars := StoreAt(st2.vars, Target(st2.vars, ctx), o'))
    requires Took(env.input, st.end, st2.end, Sliced(st2, env.input), true) && Touched(fs, o, o') && GoodFields(fs, o')
    requires |EncodeFields(fs, o')| <= |Sliced(st2, env.input)| && (NoBools(fs) ==> EncodeFields(fs, o') == Sliced(st2, env.input))
    ensures Filled(fs, st, st', env, Target(st.vars, ctx), o, o', depth, counter)
  {
    hide EncodeFields, Sliced, Touched, GoodFields, NoBools, Get, Set;
  }

  // ---------------------------------------------------------------- loops over strings and messages

  lemma {:induction false} ListAppend(base: Base, vs: seq<Value>, v: Value)
    ensures EncodeList(base, vs + [v]) == EncodeList(base, vs) + EncodeBase(base, v)
  {
    if vs == [] {
      assert [] + [v] == [v] && [v][1..] == [];
      assert EncodeBase(base, v) + [] == [] + EncodeBase(base, v);
    } else {
      ListAppend(base, vs[1..], v);
      assert (vs + [v])[1..] == vs[1..] + [v];
      Associative(EncodeBase(base, vs[0]), EncodeList(base, vs[1..]), EncodeBase(base, v));
    }
  }

  lemma {:induction false} ItemTaken(base: Base, depth: nat, counter: nat, st: State, env: Env) returns (st': State, v: Value)
    requires !base.Prim? && ValidBase(base) && Exec(ItemCode(base, depth, counter), st, env).Some?
    ensures Exec(ItemCode(base, depth, counter), st, env) == Some(st')
    ensures SameStable(st.vars, st'.vars, depth, counter) && Loop(depth) in st'.vars && st'.vars[Loop(depth)] == Own(v)
    ensures Took(env.input, st.end, st'.end, EncodeBase(base, v), NoBool(base))
    ensures st'.end <= |env.input| ==> GoodBase(base, v)
    decreases base, 0
  {
    hide Exec, Run, Step, ExecFor, ExecRepeat, Get, Set, Lookup, Target, Store;
    var item := Path(Loop(depth), []);
    if base.Text? {
      assert [] + ItemGen(base, depth, counter, Deserialize).code == ItemGen(base, depth, counter, Deserialize).code;
      var b;
      st', b := StringTaken(false, Scalar, item, false, st, env, depth, counter);
      v := Bytes(b);
    } else {
      var fs := base.spec.fields;
      var code := FieldsGen(fs, item, depth + 1, counter, Deserialize).code;
      var o := Rec(DefaultFields(fs));
      var st1 := Constructed(fs, base.spec, depth, counter, st, env);
      ExecAppend([New(item, base.spec)], code, st, env);
      ExecSingle(New(item, base.spec), st, env);
      ShapedIsSettable(fs, o);
      ValidIsEmbeddedValid(fs);
      st', v := FieldsTaken(fs, item, depth + 1, counter, st1, env, o);
      LoopVariableHolds(st1.vars, st'.vars, depth, counter, o, v);
      StaysMessage(fs, o, v);
    }
  }

  /** An object with the slots of a message still has them. */
  lemma StaysMessage(fs: seq<Field>, o: Value, v: Value)
    requires Shaped(fs, o) && Settable(fs, o) && Touched(fs, o, v)
    ensures v.Rec? && v.m.Keys == Names(fs)
  {
    assert forall i :: 0 <= i < |fs| ==> !(fs[i].name <= []);
    assert KeepsRecord(o, v, []);
  }

  lemma ValidIsEmbeddedValid(fs: seq<Field>)
    requires ValidFields(fs)
    ensures EmbeddedValid(fs)
  {
  }

  lemma {:induction false} RoundsTaken(base: Base, p: Path, depth: nat, counter: nat, n: nat, done: seq<Value>, st: State, env: Env)
    returns (st': State, more: seq<Value>)
    requires !base.Prim? && ValidBase(base)
    requires p.attrs != [] && Anchored(st.vars, p, depth, counter) && Lookup(st.vars, p) == Some(List(done))
    requires ExecRepeat(n, ItemCode(base, depth, counter) + [Append(p, Loop(depth))], st, env).Some?
    ensures ExecRepeat(n, ItemCode(base, depth, counter) + [Append(p, Loop(depth))], st, env) == Some(st')
    ensures |more| == n && Updated(st.vars, st'.vars, Target(st.vars, p), List(done + more), depth, counter)
    ensures Took(env.input, st.end, st'.end, EncodeList(base, more), NoBool(base))
    ensures st'.end <= |env.input| ==> GoodList(base, more)
    decreases base, 1, n
  {
    hide *;
    var body := ItemCode(base, depth, counter) + [Append(p, Loop(depth))];
    if n == 0 {
      st', more := st, [];
      NothingRepeats(base, p, body, depth, counter, done, [], st, env);
      TookNothing(env.input, st.end);
      TookLess(env.input, st.end, st.end, [], true, NoBool(base));
      NoneIsGood(base);
    } else {
      RepeatTwo(n, ItemCode(base, depth, counter), [Append(p, Loop(depth))], st, env);
      var st0, v := ItemTaken(base, depth, counter, st, env);
      var st1 := RoundEnds(ItemCode(base, depth, counter), p, depth, counter, done, v, st, st0, env);
      var rest;
      st', rest := RoundsTaken(base, p, depth, counter, n - 1, done + [v], st1, env);
      more := [v] + rest;
      assert done + [v] + rest == done + more;
      RepeatStep(n, body, st, st1, st', env, Target(st.vars, p), List(done + [v]), List(done + more), depth, counter);
      TookBoth(env.input, st.end, st1.end, st'.end, EncodeBase(base, v), EncodeList(base, rest), NoBool(base), NoBool(base));
      ListCons(base, v, rest);
      TookForward(env.input, st1.end, st'.end, EncodeList(base, rest), NoBool(base));
      if st'.end <= |env.input| {
        OneMoreIsGood(base, v, rest);
      }
    }
  }

  lemma ListCons(base: Base, v: Value, rest: seq<Value>)
    ensures EncodeList(base, [v] + rest) == EncodeBase(base, v) + EncodeList(base, rest)
  {
    assert ([v] + rest)[1..] == rest;
  }

  lemma TookForward(input: seq<Byte>, pos: nat, end: nat, bytes: seq<Byte>, exact: bool)
    requires Took(input, pos, end, bytes, exact)
    ensures pos <= end
  {
  }

  lemma NoneIsGood(base: Base)
    ensures GoodList(base, [])
  {
  }

  lemma OneMoreIsGood(base: Base, v: Value, rest: seq<Value>)
    requires GoodBase(base, v) && GoodList(base, rest)
    ensures GoodList(base, [v] + rest)
  {
    assert ([v] + rest)[1..] == rest;
    ListDamage(Deserialize, base, [v] + rest);
  }

  lemma RepeatTwo(n: nat, a: seq<Stmt>, b: seq<Stmt>, st: State, env: Env)
    requires n > 0 && ExecRepeat(n, a + b, st, env).Some?
    ensures Exec(a, st, env).Some? && Exec(a + b, st, env).Some?
    ensures ExecRepeat(n, a + b, st, env) == ExecRepeat(n - 1, a + b, Exec(a + b, st, env).value, env)
  {
    ExecAppend(a, b, st, env);
  }

  lemma {:induction false} LoopTaken(base: Base, times: Amount, p: Path, depth: nat, counter: nat, st: State, env: Env)
    returns (st': State, vs: seq<Value>)
    requires !base.Prim? && ValidBase(base) && p.attrs != [] && Assignable(st.vars, p, depth, counter)
    requires Exec([SetEmpty(p), ForRange(times, ItemCode(base, depth, counter) + [Append(p, Loop(depth))])], st, env).Some?
    ensures Exec([SetEmpty(p), ForRange(times, ItemCode(base, depth, counter) + [Append(p, Loop(depth))])], st, env) == Some(st')
    ensures |vs| == AmountOf(times, st) && AssignedTo(st.vars, st'.vars, p, List(vs), depth, counter)
    ensures Took(env.input, st.end, st'.end, EncodeList(base, vs), NoBool(base))
    ensures st'.end <= |env.input| ==> GoodList(base, vs)
    decreases base, 2
  {
    hide Exec, Run, Step, ExecFor, ExecRepeat, Get, Set, Lookup, Target, Store;
    var loop := ForRange(times, ItemCode(base, depth, counter) + [Append(p, Loop(depth))]);
    var st1 := RunSetEmpty(p, loop, st, env, depth, counter);
    st', vs := RoundsTaken(base, p, depth, counter, AmountOf(times, st), [], st1, env);
    assert [] + vs == vs;
    UpdatedTwice(st.vars, st1.vars, st'.vars, Target(st.vars, p), List([]), List(vs), depth, counter);
  }

  /** An array of strings or messages. */
  lemma {:induction false} ArrayTaken(base: Base, kind: Kind, p: Path, depth: nat, counter: nat, st: State, env: Env)
    returns (st': State, v: Value)
    requires !base.Prim? && !kind.Scalar? && ValidBase(base) && p.attrs != [] && Assignable(st.vars, p, depth, counter)
    requires Exec(LoopGen(base, kind, p, depth, counter, Deserialize).code, st, env).Some?
    ensures Exec(LoopGen(base, kind, p, depth, counter, Deserialize).code, st, env) == Some(st')
    ensures AssignedTo(st.vars, st'.vars, p, v, depth, counter)
    ensures Took(env.input, st.end, st'.end, EncodeField(base, kind, v), NoBool(base))
    ensures st'.end <= |env.input| ==> GoodField(base, kind, v)
    decreases base, 3
  {
    hide Exec, Run, Step, ExecFor, ExecRepeat, Get, Set, Lookup, Target, Store, EncodeList;
    var loop := [SetEmpty(p), ForRange(Times(kind), ItemCode(base, depth, counter) + [Append(p, Loop(depth))])];
    var vs;
    if kind.VarLength? {
      assert LoopGen(base, kind, p, depth, counter, Deserialize).code == LenCode(p, false, Deserialize) + loop;
      var st1 := LengthTaken(p, false, st, env, loop);
      st', vs := LoopTaken(base, Times(kind), p, depth, counter, st1, env);
      TookBoth(env.input, st.end, st1.end, st'.end, LE(|vs|, 4), EncodeList(base, vs), true, NoBool(base));
    } else {
      assert [] + loop == loop;
      st', vs := LoopTaken(base, Times(kind), p, depth, counter, st, env);
      assert [] + EncodeList(base, vs) == EncodeList(base, vs);
    }
    v := List(vs);
  }

  // ---------------------------------------------------------------- whole field lists

  lemma {:induction false} ComplexTaken(f: Field, ctx: Path, depth: nat, counter: nat, st: State, env: Env, o: Value)
    returns (st': State, v: Value)
    requires !IsSimple(f) && EmbeddedValid([f]) && Settable([f], o)
    requires Anchored(st.vars, ctx, depth, counter) && Lookup(st.vars, ctx) == Some(o)
    requires Exec(ComplexGen(f, ctx, depth, counter, Deserialize).code, st, env).Some?
    ensures Exec(ComplexGen(f, ctx, depth, counter, Deserialize).code, st, env) == Some(st')
    ensures Updated(st.vars, st'.vars, Target(st.vars, ctx), Assigned(o, f.name, v), depth, counter)
    ensures Took(env.input, st.end, st'.end, EncodeField(f.base, f.kind, v), NoBool(f.base))
    ensures st'.end <= |env.input| ==> GoodField(f.base, f.kind, v)
    decreases f, 1
  {
    hide Exec, Run, Step, ExecFor, ExecRepeat, Get, Set, Lookup, Target, Store, EncodeList;
    var p := ctx.Dot(f.name);
    assert [f][0] == f;
    LookupDot(st.vars, ctx, f.name);
    assert Assignable(st.vars, p, depth, counter);
    if f.kind.Scalar? && f.base.Embedded? {
      st', v := EmbeddedTaken(f, p, depth, counter, st, env, Get(o, f.name).value);
    } else if !f.kind.Scalar? && !f.base.Prim? {
      st', v := ArrayTaken(f.base, f.kind, p, depth, counter, st, env);
    } else {
      st', v := LeafTaken(f, ctx, depth, counter, st, env);
    }
    SlotUpdated(st.vars, st'.vars, ctx, f.name, o, v, depth, counter);
  }

  /** Strings, byte arrays and arrays of numbers. */
  lemma LeafTaken(f: Field, ctx: Path, depth: nat, counter: nat, st: State, env: Env) returns (st': State, v: Value)
    requires !IsSimple(f) && (if f.kind.Scalar? then f.base.Text? else f.base.Prim?) && f.name != []
    requires Assignable(st.vars, ctx.Dot(f.name), depth, counter)
    requires Exec(ComplexGen(f, ctx, depth, counter, Deserialize).code, st, env).Some?
    ensures Exec(ComplexGen(f, ctx, depth, counter, Deserialize).code, st, env) == Some(st')
    ensures AssignedTo(st.vars, st'.vars, ctx.Dot(f.name), v, depth, counter)
    ensures Took(env.input, st.end, st'.end, EncodeField(f.base, f.kind, v), NoBool(f.base))
    ensures st'.end <= |env.input| ==> GoodField(f.base, f.kind, v)
  {
    hide Exec, Run, Step, ExecFor, ExecRepeat, Get, Set, Lookup, Target, Store, EncodeList, Took;
    var p := ctx.Dot(f.name);
    if IsByteArray(f.base, f.kind) || f.kind.Scalar? {
      var b;
      if f.kind.FixedLength? {
        st', b := FixedBytesTaken(f.kind.n, p, st, env, depth, counter);
        assert [] + b == b;
      } else {
        st', b := StringTaken(IsByteArray(f.base, f.kind), f.kind, p, true, st, env, depth, counter);
      }
      v := Bytes(b);
    } else {
      var vs;
      if f.kind.VarLength? {
        st', vs := VarArrayTaken(f.base.t, p, st, env, depth, counter);
      } else {
        st', vs := FixedArrayTaken(f.base.t, f.kind.n, p, st, env, depth, counter);
        assert [] + EncodeList(f.base, vs) == EncodeList(f.base, vs);
      }
      v := List(vs);
    }
  }

  lemma {:induction false} EmbeddedTaken(f: Field, p: Path, depth: nat, counter: nat, st: State, env: Env, sub: Value)
    returns (st': State, v: Value)
    requires IsEmbedded(f) && ValidFields(f.base.spec.fields)
    requires Anchored(st.vars, p, depth, counter) && Lookup(st.vars, p) == Some(sub) && Shaped(f.base.spec.fields, sub)
    requires
      var code := FieldsGen(f.base.spec.fields, Path(Ctx(counter + 1), []), depth + 1, counter + 1, Deserialize).code;
      Exec([Assign(Ctx(counter + 1), p)] + code, st, env).Some?
    ensures
      var code := FieldsGen(f.base.spec.fields, Path(Ctx(counter + 1), []), depth + 1, counter + 1, Deserialize).code;
      Exec([Assign(Ctx(counter + 1), p)] + code, st, env) == Some(st')
    ensures Updated(st.vars, st'.vars, Target(st.vars, p), v, depth, counter)
    ensures Took(env.input, st.end, st'.end, EncodeField(f.base, f.kind, v), NoBool(f.base))
    ensures st'.end <= |env.input| ==> GoodField(f.base, f.kind, v)
    decreases f, 0
  {
    hide Exec, Run, Step, ExecFor, ExecRepeat, Get, Set, Lookup, Target, Store, GoodField, GoodFields, Touched, Took, EncodeField, Settable, NoBools, NoBool;
    var fs, q := f.base.spec.fields, Path(Ctx(counter + 1), []);
    var st1 := AssignCtx(p, st, env, sub, depth, counter, FieldsGen(fs, q, depth + 1, counter + 1, Deserialize).code);
    ShapedIsSettable(fs, sub);
    ValidIsEmbeddedValid(fs);
    st', v := FieldsTaken(fs, q, depth + 1, counter + 1, st1, env, sub);
    MessageTaken(f, sub, v);
    UpdatedWeaker(st1.vars, st'.vars, Target(st.vars, p), v, depth + 1, counter + 1, depth, counter);
  }

  lemma MessageTaken(f: Field, o: Value, v: Value)
    requires IsEmbedded(f) && Shaped(f.base.spec.fields, o) && Settable(f.base.spec.fields, o) && Touched(f.base.spec.fields, o, v)
    ensures var fs := f.base.spec.fields;
      && EncodeField(f.base, f.kind, v) == EncodeFields(fs, v) && NoBool(f.base) == NoBools(fs)
      && (GoodFields(fs, v) ==> GoodField(f.base, f.kind, v))
  {
    StaysMessage(f.base.spec.fields, o, v);
  }

  /** The code for a field list fills the slots and nothing else. */
  lemma {:induction false} FieldsTaken(fs: seq<Field>, ctx: Path, depth: nat, counter: nat, st: State, env: Env, o: Value)
    returns (st': State, o': Value)
    requires EmbeddedValid(fs) && Settable(fs, o) && AllApart(fs)
    requires Anchored(st.vars, ctx, depth, counter) && Lookup(st.vars, ctx) == Some(o)
    requires Exec(ChunksGen(fs, ctx, depth, counter, Deserialize).code, st, env).Some?
    ensures Exec(ChunksGen(fs, ctx, depth, counter, Deserialize).code, st, env) == Some(st')
    ensures Filled(fs, st, st', env, Target(st.vars, ctx), o, o', depth, counter)
    decreases fs, 2
  {
    hide Exec, Run, Step, ExecFor, ExecRepeat, Get, Set, Lookup, Target, Store;
    if fs == [] {
      NothingRead(ctx, depth, counter, st, env, o);
      NothingRun(st, env);
      UntouchedIsTouched(fs, o);
      st', o' := st, o;
    } else {
      var n := FirstLength(fs);
      var first := FirstCode(fs, ctx, depth, counter);
      var g := ChunksGen(fs[n..], ctx, depth, first.counter, Deserialize);
      ExecAppend(first.code, g.code, st, env);
      SettableSplit(fs, n, o);
      var st1, o1 := FirstTaken(fs, first, ctx, depth, counter, st, env, o);
      st', o' := RestTaken(fs, n, first.counter, ctx, depth, counter, st, st1, env, o, o1);
    }
  }

  /** The code of the first chunk, or of the first field when it is not simple. */
  lemma FirstCode(fs: seq<Field>, ctx: Path, depth: nat, counter: nat) returns (first: Gen)
    requires fs != []
    ensures first == if ChunkLength(fs) > 0 then SimpleGen(fs[..ChunkLength(fs)], ctx, counter, Deserialize)
                     else ComplexGen(fs[0], ctx, depth, counter, Deserialize)
    ensures first.counter >= counter
    ensures ChunksGen(fs, ctx, depth, counter, Deserialize)
            == first.Then(ChunksGen(fs[FirstLength(fs)..], ctx, depth, first.counter, Deserialize))
  {
    first := if ChunkLength(fs) > 0 then SimpleGen(fs[..ChunkLength(fs)], ctx, counter, Deserialize)
             else ComplexGen(fs[0], ctx, depth, counter, Deserialize);
  }

  lemma {:induction false} FirstTaken(fs: seq<Field>, first: Gen, ctx: Path, depth: nat, counter: nat, st: State, env: Env, o: Value)
    returns (st1: State, o1: Value)
    requires fs != [] && EmbeddedValid(fs) && Settable(fs, o) && AllApart(fs)
    requires Anchored(st.vars, ctx, depth, counter) && Lookup(st.vars, ctx) == Some(o)
    requires first == if ChunkLength(fs) > 0 then SimpleGen(fs[..ChunkLength(fs)], ctx, counter, Deserialize)
                      else ComplexGen(fs[0], ctx, depth, counter, Deserialize)
    requires Exec(first.code, st, env).Some?
    ensures Exec(first.code, st, env) == Some(st1)
    ensures Filled(fs[..FirstLength(fs)], st, st1, env, Target(st.vars, ctx), o, o1, depth, counter)
    decreases fs, 1
  {
    hide Exec, Run, Step, ExecFor, ExecRepeat, Get, Set, Lookup, Target, Store;
    SettableSplit(fs, FirstLength(fs), o);
    if ChunkLength(fs) > 0 {
      st1, o1 := ChunkTaken(fs[..ChunkLength(fs)], ctx, depth, counter, st, env, o);
    } else {
      assert fs[..1] == [fs[0]];
      st1, o1 := OneTaken(fs[0], ctx, depth, counter, st, env, o);
    }
  }

  lemma {:induction false} OneTaken(f: Field, ctx: Path, depth: nat, counter: nat, st: State, env: Env, o: Value)
    returns (st1: State, o1: Value)
    requires !IsSimple(f) && EmbeddedValid([f]) && Settable([f], o)
    requires Anchored(st.vars, ctx, depth, counter) && Lookup(st.vars, ctx) == Some(o)
    requires Exec(ComplexGen(f, ctx, depth, counter, Deserialize).code, st, env).Some?
    ensures Exec(ComplexGen(f, ctx, depth, counter, Deserialize).code, st, env) == Some(st1)
    ensures Filled([f], st, st1, env, Target(st.vars, ctx), o, o1, depth, counter)
    decreases f, 2
  {
    hide Exec, Run, Step, ExecFor, ExecRepeat, Get, Set, Lookup, Target, Store;
    assert [f][0] == f;
    var v;
    st1, v := ComplexTaken(f, ctx, depth, counter, st, env, o);
    o1 := Assigned(o, f.name, v);
    AssignedTouches(f, o, v);
    HeadEncodes(f, o1);
    HeadDamaged(Deserialize, f, o1);
  }

  lemma AfterFirst(fs: seq<Field>, n: nat, o: Value, o1: Value)
    requires n <= |fs| && EmbeddedValid(fs) && Settable(fs, o) && AllApart(fs) && Touched(fs[..n], o, o1)
    ensures EmbeddedValid(fs[n..]) && Settable(fs[n..], o1) && AllApart(fs[n..])
  {
    var a, b := fs[..n], fs[n..];
    assert forall i :: 0 <= i < |b| ==> b[i] == fs[n + i];
    forall i | 0 <= i < |b| ensures Get(o1, b[i].name) == Get(o, b[i].name) {
      forall j | 0 <= j < |a| ensures Apart(a[j].name, b[i].name) {
        assert Apart(fs[j].name, fs[n + i].name);
      }
    }
  }

  lemma {:induction false} SameSlotsEncode(fs: seq<Field>, o1: Value, o2: Value)
    requires forall i :: 0 <= i < |fs| ==> Get(o1, fs[i].name) == Get(o2, fs[i].name)
    ensures EncodeFields(fs, o1) == EncodeFields(fs, o2)
    ensures DamagedFields(Deserialize, fs, o1) == DamagedFields(Deserialize, fs, o2)
  {
    if fs != [] {
      assert forall i :: 0 <= i < |fs[1..]| ==> fs[1..][i] == fs[i + 1];
      SameSlotsEncode(fs[1..], o1, o2);
    }
  }

  lemma BothGood(a: seq<Field>, b: seq<Field>, o1: Value, o': Value)
    requires forall i :: 0 <= i < |a| ==> Get(o', a[i].name) == Get(o1, a[i].name)
    ensures GoodFields(a, o1) && GoodFields(b, o') ==> GoodFields(a + b, o')
  {
    hide DamagedFields, TypedField, Get;
    SameSlotsEncode(a, o1, o');
    DamageAppend(Deserialize, a, b, o');
    if TypedFields(a, o1, true) && TypedFields(b, o', true) {
      BothTyped(a, b, o1, o');
    }
  }

  lemma BothTyped(a: seq<Field>, b: seq<Field>, o1: Value, o': Value)
    requires forall i :: 0 <= i < |a| ==> Get(o', a[i].name) == Get(o1, a[i].name)
    requires TypedFields(a, o1, true) && TypedFields(b, o', true)
    ensures TypedFields(a + b, o', true)
  {
    hide TypedField, Get;
    forall i | 0 <= i < |a + b|
      ensures var f := (a + b)[i]; Get(o', f.name).Some? && TypedField(f.base, f.kind, Get(o', f.name).value, true)
    {
      if i < |a| {
        assert (a + b)[i] == a[i];
      } else {
        assert (a + b)[i] == b[i - |a|];
      }
    }
  }

  lemma {:induction false} RestTaken(fs: seq<Field>, n: nat, counter': nat, ctx: Path, depth: nat, counter: nat, st: State, st1: State, env: Env,
                                     o: Value, o1: Value) returns (st': State, o': Value)
    requires 1 <= n <= |fs| && counter <= counter' && EmbeddedValid(fs) && Settable(fs, o) && AllApart(fs)
    requires Anchored(st.vars, ctx, depth, counter) && Lookup(st.vars, ctx) == Some(o)
    requires Filled(fs[..n], st, st1, env, Target(st.vars, ctx), o, o1, depth, counter)
    requires Exec(ChunksGen(fs[n..], ctx, depth, counter', Deserialize).code, st1, env).Some?
    ensures Exec(ChunksGen(fs[n..], ctx, depth, counter', Deserialize).code, st1, env) == Some(st')
    ensures Filled(fs, st, st', env, Target(st.vars, ctx), o, o', depth, counter)
    decreases fs, 1
  {
    hide Exec, Run, Step, ExecFor, ExecRepeat, Get, Set, Lookup, Target, Store, EncodeFields, ChunksGen, Settable, AllApart, EmbeddedValid, Touched, NoBools, GoodFields;
    var a, b := fs[..n], fs[n..];
    AfterFirst(fs, n, o, o1);
    UpdatedLookup(st.vars, st1.vars, ctx, o1, depth, counter);
    Monotone(st1.vars, ctx, depth, counter, depth, counter');
    st', o' := FieldsTaken(b, ctx, depth, counter', st1, env, o1);
    UpdatedWeaker(st1.vars, st'.vars, Target(st.vars, ctx), o', depth, counter', depth, counter);
    UpdatedTwice(st.vars, st1.vars, st'.vars, Target(st.vars, ctx), o1, o', depth, counter);
    assert a + b == fs;
    TouchedBoth(a, b, o, o1, o');
    SameSlotsEncode(a, o1, o');
    BothGood(a, b, o1, o');
    EncodeAppend(a, b, o');
    NoBoolsSplit(fs, n);
    TookBoth(env.input, st.end, st1.end, st'.end, EncodeFields(a, o'), EncodeFields(b, o'), NoBools(a), NoBools(b));
  }

  // ---------------------------------------------------------------- from flattened fields to the message

  /** Where a flattened field comes from. */
  lemma {:induction false} FlattenOrigin(fs: seq<Field>, j: nat) returns (k: nat, m: nat)
    requires j < |Flatten(fs)|
    ensures k < |fs| && m < |FlattenOne(fs[k])| && Flatten(fs)[j] == FlattenOne(fs[k])[m]
    decreases |fs|
  {
    hide FlattenOne;
    var first := FlattenOne(fs[0]);
    if j < |first| {
      k, m := 0, j;
    } else {
      k, m := FlattenOrigin(fs[1..], j - |first|);
      k := k + 1;
    }
  }

  lemma SliceBehind(a: seq<Field>, b: seq<Field>, k: nat, x: seq<Field>)
    requires k + |x| <= |b| && b[k..k + |x|] == x
    ensures (a + b)[|a| + k..|a| + k + |x|] == x
  {
  }

  /** Where the flattening of a field is. */
  lemma {:induction false} FlattenPlace(fs: seq<Field>, i: nat) returns (k: nat)
    requires i < |fs|
    ensures k + |FlattenOne(fs[i])| <= |Flatten(fs)| && Flatten(fs)[k..k + |FlattenOne(fs[i])|] == FlattenOne(fs[i])
    decreases |fs|
  {
    hide FlattenOne;
    var a, b := FlattenOne(fs[0]), Flatten(fs[1..]);
    if i == 0 {
      k := 0;
      assert (a + b)[..|a|] == a;
    } else {
      k := FlattenPlace(fs[1..], i - 1);
      SliceBehind(a, b, k, FlattenOne(fs[i]));
      k := |a| + k;
    }
  }

  /** No flattened name is at or above an object inside an embedded field, unless one of that field's is. */
  lemma NoneAbove(fs: seq<Field>, i: nat, c: seq<string>)
    requires ValidFields(fs) && i < |fs| && IsEmbedded(fs[i])
    requires var sub := Flatten(fs[i].base.spec.fields); forall m :: 0 <= m < |sub| ==> !(sub[m].name <= c)
    ensures forall j :: 0 <= j < |Flatten(fs)| ==> !(Flatten(fs)[j].name <= fs[i].name + c)
  {
    hide Flatten, ValidFields;
    forall j | 0 <= j < |Flatten(fs)| ensures !(Flatten(fs)[j].name <= fs[i].name + c) {
      OneNotAbove(fs, Flatten(fs[i].base.spec.fields), i, c, j);
    }
  }

  lemma OneNotAbove(fs: seq<Field>, sub: seq<Field>, i: nat, c: seq<string>, j: nat)
    requires ValidFields(fs) && i < |fs| && IsEmbedded(fs[i]) && j < |Flatten(fs)| && sub == Flatten(fs[i].base.spec.fields)
    requires forall m :: 0 <= m < |sub| ==> !(sub[m].name <= c)
    ensures !(Flatten(fs)[j].name <= fs[i].name + c)
  {
    var k, m := FlattenOrigin(fs, j);
    var p, n := fs[i].name, Flatten(fs)[j].name;
    if n <= p + c {
      PartBegins(fs[k], m);
      SameHead(fs[k].name, n, p, c);
      assert k == i;
      assert FlattenOne(fs[i]) == Prefixed(p, sub);
      assert n == p + sub[m].name;
      PrefixCancels(p, sub[m].name, c);
    }
  }

  lemma PartBegins(f: Field, m: nat)
    requires m < |FlattenOne(f)|
    ensures f.name <= FlattenOne(f)[m].name
  {
    hide Flatten;
  }

  lemma SameHead(head: seq<string>, n: seq<string>, p: seq<string>, c: seq<string>)
    requires |head| == |p| == 1 && head <= n <= p + c
    ensures head == p
  {
    assert head[0] == n[0] == (p + c)[0] == p[0];
  }

  /** Records that no flattened name leads to keep their slots. */
  ghost predicate KeepsRecords(flat: seq<Field>, o: Value, o': Value)
  {
    forall b :: (forall i :: 0 <= i < |flat| ==> !(flat[i].name <= b)) ==> KeepsRecord(o, o', b)
  }

  lemma EmbeddedKept(fs: seq<Field>, i: nat, o: Value, o': Value)
    requires ValidFields(fs) && Shaped(fs, o) && i < |fs| && IsEmbedded(fs[i]) && KeepsRecords(Flatten(fs), o, o')
    ensures Get(o', fs[i].name).Some? && Get(o, fs[i].name).Some?
    ensures KeepsRecords(Flatten(fs[i].base.spec.fields), Get(o, fs[i].name).value, Get(o', fs[i].name).value)
  {
    hide Flatten;
    var p, sub := fs[i].name, fs[i].base.spec.fields;
    FlattenHeads(sub);
    assert p + [] == p;
    NoneAbove(fs, i, []);
    assert KeepsRecord(o, o', p);
    var x, x' := Get(o, p).value, Get(o', p).value;
    forall b | forall m :: 0 <= m < |Flatten(sub)| ==> !(Flatten(sub)[m].name <= b) ensures KeepsRecord(x, x', b) {
      NoneAbove(fs, i, b);
      assert KeepsRecord(o, o', p + b);
      GetThrough(o, p, b);
      GetThrough(o', p, b);
    }
  }

  lemma PartTyped(fs: seq<Field>, i: nat, o': Value)
    requires i < |fs| && TypedFields(Flatten(fs), o', true)
    ensures TypedFields(FlattenOne(fs[i]), o', true)
  {
    hide Flatten, FlattenOne, Get, TypedField;
    var k := FlattenPlace(fs, i);
    forall m | 0 <= m < |FlattenOne(fs[i])|
      ensures var f := FlattenOne(fs[i])[m]; Get(o', f.name).Some? && TypedField(f.base, f.kind, Get(o', f.name).value, true)
    {
      assert Flatten(fs)[k..k + |FlattenOne(fs[i])|][m] == Flatten(fs)[k + m];
    }
  }

  lemma PrefixedTypedBack(p: seq<string>, fs: seq<Field>, o: Value)
    requires Get(o, p).Some? && TypedFields(Prefixed(p, fs), o, true)
    ensures TypedFields(fs, Get(o, p).value, true)
  {
    forall i | 0 <= i < |fs|
      ensures Get(Get(o, p).value, fs[i].name).Some? && TypedField(fs[i].base, fs[i].kind, Get(Get(o, p).value, fs[i].name).value, true)
    {
      GetThrough(o, p, fs[i].name);
      assert Prefixed(p, fs)[i] == fs[i].(name := p + fs[i].name);
    }
  }

  /** What is well-typed flattened, in objects that kept their slots, is a well-typed message. */
  lemma {:induction false} UnflattenTyped(fs: seq<Field>, o: Value, o': Value)
    requires ValidFields(fs) && Shaped(fs, o) && KeepsRecords(Flatten(fs), o, o') && TypedFields(Flatten(fs), o', true)
    ensures o'.Rec? && o'.m.Keys == Names(fs) && TypedFields(fs, o', true)
    decreases fs
  {
    hide Flatten, TypedField, TypedFields;
    FlattenHeads(fs);
    assert forall i :: 0 <= i < |Flatten(fs)| ==> !(Flatten(fs)[i].name <= []);
    assert KeepsRecord(o, o', []);
    forall i | 0 <= i < |fs|
      ensures Get(o', fs[i].name).Some? && TypedField(fs[i].base, fs[i].kind, Get(o', fs[i].name).value, true)
    {
      var f := fs[i];
      PartTyped(fs, i, o');
      if IsEmbedded(f) {
        EmbeddedKept(fs, i, o, o');
        PrefixedTypedBack(f.name, Flatten(f.base.spec.fields), o');
        UnflattenTyped(f.base.spec.fields, Get(o, f.name).value, Get(o', f.name).value);
        ScalarTyped(f, Get(o', f.name).value);
      } else {
        OneTyped(f, o');
      }
    }
    AllTyped(fs, o');
  }

  lemma ScalarTyped(f: Field, x: Value)
    requires IsEmbedded(f) && x.Rec? && x.m.Keys == Names(f.base.spec.fields) && TypedFields(f.base.spec.fields, x, true)
    ensures TypedField(f.base, f.kind, x, true)
  {
    assert TypedBase(f.base, x, true);
  }

  lemma OneTyped(f: Field, o: Value)
    requires TypedFields([f], o, true)
    ensures Get(o, f.name).Some? && TypedField(f.base, f.kind, Get(o, f.name).value, true)
  {
    assert [f][0] == f;
  }

  lemma AllTyped(fs: seq<Field>, o: Value)
    requires forall i :: 0 <= i < |fs| ==>
      Get(o, fs[i].name).Some? && TypedField(fs[i].base, fs[i].kind, Get(o, fs[i].name).value, true)
    ensures TypedFields(fs, o, true)
  {
  }
}
