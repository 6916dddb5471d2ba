/**
 Generated code is closed and hygienic: each `_v<N>` is bound once, a loop never reuses the
 variable of a loop around it, and every `_struct_<p>` mentioned has a recorded pattern.
 */
module Hygiene {
  import opened Wrappers
  import opened Sequences
  import opened StructFormat
  import opened Messages
  import opened PyCode
  import opened Genpy
  import opened MessageCompiler

  /** The numbers N of the `_v<N>` variables a piece of code binds, in program order. */
  function BoundCtx(s: Stmt): seq<nat>
    decreases s
  {
    match s
    case Assign(x, _) => if x.Ctx? then [x.k] else []
    case IfList(_, thn, els) => AllBoundCtx(thn) + AllBoundCtx(els)
    case IfNone(_, thn) => AllBoundCtx(thn)
    case ForIn(_, _, body) => AllBoundCtx(body)
    case ForRange(_, body) => AllBoundCtx(body)
    case _ => []
  }

  function AllBoundCtx(code: seq<Stmt>): seq<nat>
    decreases code
  {
    if code == [] then [] else BoundCtx(code[0]) + AllBoundCtx(code[1..])
  }

  /** The `_struct_<p>` names a piece of code mentions. */
  function Mentioned(s: Stmt): set<string>
    decreases s
  {
    match s
    case WriteLength => {"I"}
    case ReadLength => {"I"}
    case WriteStruct(p, _) => {p}
    case WriteStar(p, _) => {p}
    case ReadStruct(p, _) => {p}
    case ReadStar(p, _) => {p}
    case IfList(_, thn, els) => AllMentioned(thn) + AllMentioned(els)
    case IfNone(_, thn) => AllMentioned(thn)
    case ForIn(_, _, body) => AllMentioned(body)
    case ForRange(_, body) => AllMentioned(body)
    case _ => {}
  }

  function AllMentioned(code: seq<Stmt>): set<string>
    decreases code
  {
    if code == [] then {} else Mentioned(code[0]) + AllMentioned(code[1..])
  }

  /** The variable a loop gives its elements to: the one it iterates with, or the one it appends. */
  function LoopVariable(s: Stmt): Option<nat>
  {
    match s
    case ForIn(x, _, _) => if x.Loop? then Some(x.k) else None
    case ForRange(_, body) =>
      if body != [] && body[|body| - 1].Append? && body[|body| - 1].x.Loop? then Some(body[|body| - 1].x.k) else None
    case _ => None
  }

  /** No loop reuses a variable of `scope` or of a loop around it. */
  predicate Nested(s: Stmt, scope: set<nat>)
    decreases s
  {
    match s
    case ForIn(_, _, body) => LoopVariable(s).Some? && LoopVariable(s).value !in scope && AllNested(body, scope + {LoopVariable(s).value})
    case ForRange(_, body) => LoopVariable(s).Some? && LoopVariable(s).value !in scope && AllNested(body, scope + {LoopVariable(s).value})
    case IfList(_, thn, els) => AllNested(thn, scope) && AllNested(els, scope)
    case IfNone(_, thn) => AllNested(thn, scope)
    case _ => true
  }

  predicate AllNested(code: seq<Stmt>, scope: set<nat>)
    decreases code
  {
    code == [] || (Nested(code[0], scope) && AllNested(code[1..], scope))
  }

  function Range(lo: nat, hi: nat): (r: seq<nat>)
    ensures forall i, j :: 0 <= i < j < |r| ==> r[i] != r[j]
  {
    seq(if lo <= hi then hi - lo else 0, i => lo + i)
  }

  predicate Hygienic(g: Gen, scope: set<nat>, counter: nat)
  {
    && g.counter >= counter
    && AllBoundCtx(g.code) == Range(counter + 1, g.counter + 1)
    && AllNested(g.code, scope)
    && AllMentioned(g.code) <= Epilogue(g.patterns)
  }

  lemma {:induction false} BoundAppend(a: seq<Stmt>, b: seq<Stmt>)
    ensures AllBoundCtx(a + b) == AllBoundCtx(a) + AllBoundCtx(b)
  {
    if a == [] {
      assert a + b == b;
    } else {
      BoundAppend(a[1..], b);
      assert (a + b)[1..] == a[1..] + b;
      Associative(BoundCtx(a[0]), AllBoundCtx(a[1..]), AllBoundCtx(b));
    }
  }

  lemma {:induction false} MentionedAppend(a: seq<Stmt>, b: seq<Stmt>)
    ensures AllMentioned(a + b) == AllMentioned(a) + AllMentioned(b)
  {
    if a == [] {
      assert a + b == b;
    } else {
      MentionedAppend(a[1..], b);
      assert (a + b)[1..] == a[1..] + b;
    }
  }

  lemma {:induction false} NestedAppend(a: seq<Stmt>, b: seq<Stmt>, scope: set<nat>)
    ensures AllNested(a + b, scope) == (AllNested(a, scope) && AllNested(b, scope))
  {
    if a == [] {
      assert a + b == b;
    } else {
      NestedAppend(a[1..], b, scope);
      assert (a + b)[1..] == a[1..] + b;
    }
  }

  lemma AppendFacts(a: seq<Stmt>, b: seq<Stmt>, scope: set<nat>)
    ensures AllBoundCtx(a + b) == AllBoundCtx(a) + AllBoundCtx(b)
    ensures AllMentioned(a + b) == AllMentioned(a) + AllMentioned(b)
    ensures AllNested(a + b, scope) == (AllNested(a, scope) && AllNested(b, scope))
  {
    BoundAppend(a, b);
    MentionedAppend(a, b);
    NestedAppend(a, b, scope);
  }

  /** Plain statements: no loops, no branches, no `_v<N>`. */
  predicate Plain(s: Stmt)
  {
    !s.IfList? && !s.IfNone? && !s.ForIn? && !s.ForRange? && (s.Assign? ==> s.x.X?)
  }

  predicate AllPlain(code: seq<Stmt>, allowed: set<string>)
  {
    forall i :: 0 <= i < |code| ==> Plain(code[i]) && Mentioned(code[i]) <= allowed
  }

  lemma {:induction false} PlainFacts(code: seq<Stmt>, allowed: set<string>, scope: set<nat>)
    requires AllPlain(code, allowed)
    ensures AllBoundCtx(code) == [] && AllMentioned(code) <= allowed && AllNested(code, scope)
  {
    if code != [] {
      assert forall i :: 0 <= i < |code[1..]| ==> code[1..][i] == code[i + 1];
      PlainFacts(code[1..], allowed, scope);
      assert Plain(code[0]);
      assert BoundCtx(code[0]) == [];
    }
  }

  lemma PlainAppend(a: seq<Stmt>, b: seq<Stmt>, allowed: set<string>)
    requires AllPlain(a, allowed) && AllPlain(b, allowed)
    ensures AllPlain(a + b, allowed)
  {
  }

  lemma PlainIsHygienic(g: Gen, scope: set<nat>)
    requires AllPlain(g.code, Epilogue(g.patterns))
    ensures Hygienic(g, scope, g.counter)
  {
    PlainFacts(g.code, Epilogue(g.patterns), scope);
  }

  lemma ThenIsHygienic(a: Gen, b: Gen, scope: set<nat>, counter: nat)
    requires Hygienic(a, scope, counter) && Hygienic(b, scope, a.counter)
    ensures Hygienic(a.Then(b), scope, counter)
  {
    AppendFacts(a.code, b.code, scope);
    assert Range(counter + 1, a.counter + 1) + Range(a.counter + 1, b.counter + 1) == Range(counter + 1, b.counter + 1);
  }

  // ---------------------------------------------------------------- leaves

  lemma {:induction false} FixupsArePlain(ctx: Path, fs: seq<Field>)
    ensures AllPlain(BoolFixups(ctx, fs), {})
  {
    if fs != [] {
      FixupsArePlain(ctx, fs[1..]);
      PlainAppend(if fs[0].base == Prim(Bool) then [ToBool(ctx.Dot(fs[0].name))] else [], BoolFixups(ctx, fs[1..]), {});
    }
  }

  lemma ChunkIsPlain(fs: seq<Field>, base: Path, ctx: Path, pattern: string)
    requires forall i :: 0 <= i < |fs| ==> IsSimple(fs[i])
    requires pattern == Reduce(StructPattern(fs))
    ensures AllPlain(ReadChunkCode(fs, base, ctx), {pattern})
  {
    FixupsArePlain(ctx, fs);
    var read := [StartEnd, Advance(Const(CalcSizeOf(pattern))), ReadStruct(pattern, FieldPaths(base, fs))];
    PlainAppend(read, BoolFixups(ctx, fs), {pattern});
  }

  lemma SimpleIsHygienic(fs: seq<Field>, ctx: Path, counter: nat, mode: Mode, scope: set<nat>)
    requires forall i :: 0 <= i < |fs| ==> IsSimple(fs[i])
    ensures Hygienic(SimpleGen(fs, ctx, counter, mode), scope, counter)
  {
    var pattern := Reduce(StructPattern(fs));
    var base := if |fs| > 1 then Path(X, []) else ctx;
    var body := if mode.Serialize? then [WriteStruct(pattern, FieldPaths(base, fs))] else ReadChunkCode(fs, base, ctx);
    ChunkIsPlain(fs, base, ctx, pattern);
    PlainAppend(if |fs| > 1 then [Assign(X, ctx)] else [], body, {pattern});
    PlainFacts((if |fs| > 1 then [Assign(X, ctx)] else []) + body, {pattern}, scope);
  }

  lemma LenIsPlain(p: Path, isString: bool, mode: Mode)
    ensures AllPlain(LenCode(p, isString, mode), {"I"})
  {
  }

  lemma NothingIsPlain(allowed: set<string>)
    ensures AllPlain([], allowed)
  {
  }

  lemma SliceIsPlain(code: seq<Stmt>, p: Path)
    requires |code| == 3 && code[0] == StartEnd && code[1].Advance? && code[2] == Slice(p)
    ensures AllPlain(code, {"I"})
  {
  }

  lemma StringReadIsHygienic(bytes: bool, kind: Kind, p: Path, inContext: bool, counter: nat, scope: set<nat>)
    ensures Hygienic(StringGen(bytes, kind, p, inContext, counter, Deserialize), scope, counter)
  {
    hide Reduce, Dec, AllPlain, AllBoundCtx, AllMentioned, AllNested;
    var len := if bytes && kind.FixedLength? then [] else LenCode(p, true, Deserialize);
    var slice := [StartEnd, Advance(if kind.FixedLength? then Const(kind.n) else LengthVar), Slice(p)];
    LenIsPlain(p, true, Deserialize);
    NothingIsPlain({"I"});
    SliceIsPlain(slice, p);
    PlainAppend(len, slice, {"I"});
    PlainFacts(len + slice, {"I"}, scope);
    assert StringGen(bytes, kind, p, inContext, counter, Deserialize).code == len + slice;
  }

  lemma ChoiceFacts(front: seq<Stmt>, choice: Stmt, allowed: set<string>, scope: set<nat>)
    requires AllPlain(front, allowed)
    requires choice.IfList? && AllPlain(choice.thn, allowed) && AllPlain(choice.els, allowed)
    ensures AllBoundCtx(front + [choice]) == [] && AllMentioned(front + [choice]) <= allowed && AllNested(front + [choice], scope)
  {
    AppendFacts(front, [choice], scope);
    PlainFacts(front, allowed, scope);
    PlainFacts(choice.thn, allowed, scope);
    PlainFacts(choice.els, allowed, scope);
    assert [choice][1..] == [];
  }

  lemma FixedChoiceFacts(prologue: seq<Stmt>, v: Path, asList: string, asBytes: string, scope: set<nat>)
    requires AllPlain(prologue, {})
    ensures var code := prologue + [IfList(v, [WriteStar(asList, v)], [WriteStruct(asBytes, [v])])];
      AllBoundCtx(code) == [] && AllMentioned(code) <= Epilogue([asList, asBytes]) && AllNested(code, scope)
  {
    var allowed := Epilogue([asList, asBytes]);
    assert asList in [asList, asBytes] && asBytes in [asList, asBytes];
    ChoiceFacts(prologue, IfList(v, [WriteStar(asList, v)], [WriteStruct(asBytes, [v])]), allowed, scope);
  }

  lemma TextWriteIsHygienic(kind: Kind, p: Path, inContext: bool, counter: nat, scope: set<nat>)
    ensures Hygienic(StringGen(false, kind, p, inContext, counter, Serialize), scope, counter)
  {
    hide Reduce, Dec;
    var v := if inContext then Path(X, []) else p;
    var prologue := if inContext then [Assign(X, p)] else [];
    PlainAppend(prologue, [Len(v), WriteText(v)], {});
    PlainFacts(prologue + [Len(v), WriteText(v)], {}, scope);
    assert StringGen(false, kind, p, inContext, counter, Serialize).code == prologue + [Len(v), WriteText(v)];
  }

  lemma FixedBytesWriteIsHygienic(n: nat, p: Path, inContext: bool, counter: nat, scope: set<nat>)
    ensures Hygienic(StringGen(true, FixedLength(n), p, inContext, counter, Serialize), scope, counter)
  {
    hide Reduce, Dec;
    var v := if inContext then Path(X, []) else p;
    var asList, asBytes := Reduce(Dec(n) + "B"), Reduce(Dec(n) + "s");
    FixedChoiceFacts(if inContext then [Assign(X, p)] else [], v, asList, asBytes, scope);
  }

  lemma VarBytesWriteIsHygienic(kind: Kind, p: Path, inContext: bool, counter: nat, scope: set<nat>)
    requires !kind.FixedLength?
    ensures Hygienic(StringGen(true, kind, p, inContext, counter, Serialize), scope, counter)
  {
    hide Reduce, Dec;
    var v := if inContext then Path(X, []) else p;
    var prologue := if inContext then [Assign(X, p)] else [];
    var choice := IfList(v, [WriteTextList(v)], [WriteText(v)]);
    PlainAppend(prologue, [Len(v)], {});
    ChoiceFacts(prologue + [Len(v)], choice, {}, scope);
    assert StringGen(true, kind, p, inContext, counter, Serialize).code == prologue + [Len(v)] + [choice];
  }

  lemma StringWriteIsHygienic(bytes: bool, kind: Kind, p: Path, inContext: bool, counter: nat, scope: set<nat>)
    ensures Hygienic(StringGen(bytes, kind, p, inContext, counter, Serialize), scope, counter)
  {
    hide StringGen, Hygienic;
    if !bytes {
      TextWriteIsHygienic(kind, p, inContext, counter, scope);
    } else if kind.FixedLength? {
      FixedBytesWriteIsHygienic(kind.n, p, inContext, counter, scope);
    } else {
      VarBytesWriteIsHygienic(kind, p, inContext, counter, scope);
    }
  }

  lemma StringIsHygienic(bytes: bool, kind: Kind, p: Path, inContext: bool, counter: nat, mode: Mode, scope: set<nat>)
    ensures Hygienic(StringGen(bytes, kind, p, inContext, counter, mode), scope, counter)
  {
    if mode.Serialize? {
      StringWriteIsHygienic(bytes, kind, p, inContext, counter, scope);
    } else {
      StringReadIsHygienic(bytes, kind, p, inContext, counter, scope);
    }
  }

  lemma VarArrayIsHygienic(t: Simple, p: Path, counter: nat, mode: Mode, scope: set<nat>)
    ensures Hygienic(SimpleArrayGen(t, VarLength, p, counter, mode), scope, counter)
  {
    hide AllPlain, LenCode, Hygienic;
    var g := SimpleArrayGen(t, VarLength, p, counter, mode);
    var fixups := if mode.Deserialize? && t.Bool? then [MapBool(p)] else [];
    var len, body := LenCode(p, false, mode), if mode.Serialize? then [WritePattern(p)] else [StartEnd, Advance(CalcSizeOfPattern), ReadPattern(p)];
    LenIsPlain(p, false, mode);
    PatternIsPlain(t, p, mode);
    PlainAppend(len, [SetPattern(Code(t))], {"I"});
    PlainAppend(len + [SetPattern(Code(t))], body, {"I"});
    PlainAppend(len + [SetPattern(Code(t))] + body, fixups, {"I"});
    NothingRecorded(g);
    PlainIsHygienic(g, scope);
  }

  lemma NothingRecorded(g: Gen)
    requires g.patterns == []
    ensures Epilogue(g.patterns) == {"I"}
  {
  }

  lemma PatternIsPlain(t: Simple, p: Path, mode: Mode)
    ensures AllPlain([SetPattern(Code(t))], {"I"}) && AllPlain(if mode.Deserialize? && t.Bool? then [MapBool(p)] else [], {"I"})
    ensures AllPlain(if mode.Serialize? then [WritePattern(p)] else [StartEnd, Advance(CalcSizeOfPattern), ReadPattern(p)], {"I"})
  {
  }

  lemma FixedArrayIsHygienic(t: Simple, n: nat, p: Path, counter: nat, mode: Mode, scope: set<nat>)
    ensures Hygienic(SimpleArrayGen(t, FixedLength(n), p, counter, mode), scope, counter)
  {
    hide Dec, Reduce, CalcSizeOf, Hygienic;
    var g := SimpleArrayGen(t, FixedLength(n), p, counter, mode);
    var pattern := Dec(n) + [Code(t)];
    assert g.patterns == [Reduce(pattern)];
    assert Reduce(pattern) in Epilogue(g.patterns);
    PlainIsHygienic(g, scope);
  }

  lemma SimpleArrayIsHygienic(t: Simple, kind: Kind, p: Path, counter: nat, mode: Mode, scope: set<nat>)
    requires !kind.Scalar?
    ensures Hygienic(SimpleArrayGen(t, kind, p, counter, mode), scope, counter)
  {
    hide SimpleArrayGen, Hygienic;
    match kind
    case VarLength => VarArrayIsHygienic(t, p, counter, mode, scope);
    case FixedLength(n) => FixedArrayIsHygienic(t, n, p, counter, mode, scope);
  }

  // ---------------------------------------------------------------- recursion

  predicate Below(scope: set<nat>, depth: nat) { forall k <- scope :: k < depth }

  lemma {:induction false} ItemIsHygienic(base: Base, depth: nat, counter: nat, mode: Mode, scope: set<nat>)
    requires !base.Prim? && Below(scope, depth + 1)
    ensures Hygienic(ItemGen(base, depth, counter, mode), scope, counter)
    decreases base, 0
  {
    var item := Path(Loop(depth), []);
    if base.Text? {
      StringIsHygienic(false, Scalar, item, false, counter, mode, scope);
    } else {
      FieldsAreHygienic(base.spec.fields, item, depth + 1, counter, mode, scope);
    }
  }

  lemma {:induction false} LoopIsHygienic(base: Base, kind: Kind, p: Path, depth: nat, counter: nat, mode: Mode, scope: set<nat>)
    requires !kind.Scalar? && !base.Prim? && Below(scope, depth)
    ensures Hygienic(LoopGen(base, kind, p, depth, counter, mode), scope, counter)
    decreases base, 1
  {
    ItemIsHygienic(base, depth, counter, mode, scope + {depth});
    var inner := ItemGen(base, depth, counter, mode);
    var len := if kind.VarLength? then LenCode(p, false, mode) else [];
    LenIsPlain(p, false, mode);
    if mode.Serialize? {
      ForIsTidy(len, p, depth, inner, scope, counter);
    } else {
      RangeIsTidy(len, p, depth, Times(kind), CreateCode(base, depth), inner, scope, counter);
    }
  }

  lemma ForIsTidy(len: seq<Stmt>, p: Path, depth: nat, inner: Gen, scope: set<nat>, counter: nat)
    requires AllPlain(len, {"I"}) && Below(scope, depth) && Hygienic(inner, scope + {depth}, counter)
    ensures Hygienic(inner.(code := len + [ForIn(Loop(depth), p, inner.code)]), scope, counter)
  {
    PlainFacts(len, {"I"}, scope);
    LoopFacts(len, ForIn(Loop(depth), p, inner.code), scope);
  }

  lemma RangeIsTidy(len: seq<Stmt>, p: Path, depth: nat, times: Amount, create: seq<Stmt>, inner: Gen, scope: set<nat>, counter: nat)
    requires AllPlain(len, {"I"}) && AllPlain(create, {}) && Below(scope, depth) && Hygienic(inner, scope + {depth}, counter)
    ensures Hygienic(inner.(code := len + [SetEmpty(p), ForRange(times, create + inner.code + [Append(p, Loop(depth))])]), scope, counter)
  {
    hide AllPlain, AllBoundCtx, AllMentioned, AllNested;
    var body := create + inner.code + [Append(p, Loop(depth))];
    var front, loop := len + [SetEmpty(p)], ForRange(times, body);
    AppendIsPlain(p, depth);
    BodyFacts(create, inner.code, Append(p, Loop(depth)), scope + {depth});
    EmptyIsPlain(p);
    PlainAppend(len, [SetEmpty(p)], {"I"});
    PlainFacts(front, {"I"}, scope);
    RangeNested(times, body, p, depth, scope);
    assert len + [SetEmpty(p), loop] == front + [loop];
    LoopFacts(front, loop, scope);
  }

  lemma AppendIsPlain(p: Path, depth: nat)
    ensures AllPlain([Append(p, Loop(depth))], {})
  {
  }

  lemma EmptyIsPlain(p: Path)
    ensures AllPlain([SetEmpty(p)], {"I"})
  {
  }

  lemma RangeNested(times: Amount, body: seq<Stmt>, p: Path, depth: nat, scope: set<nat>)
    requires body != [] && body[|body| - 1] == Append(p, Loop(depth)) && Below(scope, depth) && AllNested(body, scope + {depth})
    ensures Nested(ForRange(times, body), scope)
  {
    hide AllNested;
  }

  lemma BodyFacts(create: seq<Stmt>, code: seq<Stmt>, last: Stmt, scope: set<nat>)
    requires AllPlain(create, {}) && AllPlain([last], {})
    ensures AllBoundCtx(create + code + [last]) == AllBoundCtx(code)
    ensures AllMentioned(create + code + [last]) == AllMentioned(code)
    ensures AllNested(create + code + [last], scope) == AllNested(code, scope)
  {
    AppendFacts(create + code, [last], scope);
    AppendFacts(create, code, scope);
    PlainFacts(create, {}, scope);
    PlainFacts([last], {}, scope);
  }

  lemma LoopFacts(front: seq<Stmt>, loop: Stmt, scope: set<nat>)
    requires loop.ForIn? || loop.ForRange?
    ensures AllBoundCtx(front + [loop]) == AllBoundCtx(front) + AllBoundCtx(loop.body)
    ensures AllMentioned(front + [loop]) == AllMentioned(front) + AllMentioned(loop.body)
    ensures AllNested(front + [loop], scope) == (AllNested(front, scope) && Nested(loop, scope))
  {
    AppendFacts(front, [loop], scope);
    assert [loop][1..] == [];
    assert BoundCtx(loop) + [] == BoundCtx(loop);
  }

  lemma {:induction false} ComplexIsHygienic(f: Field, ctx: Path, depth: nat, counter: nat, mode: Mode, scope: set<nat>)
    requires !IsSimple(f) && Below(scope, depth)
    ensures Hygienic(ComplexGen(f, ctx, depth, counter, mode), scope, counter)
    decreases f, 1
  {
    var p := ctx.Dot(f.name);
    if !f.kind.Scalar? {
      if IsByteArray(f.base, f.kind) {
        StringIsHygienic(true, f.kind, p, true, counter, mode, scope);
      } else if f.base.Prim? {
        SimpleArrayIsHygienic(f.base.t, f.kind, p, counter, mode, scope);
      } else {
        LoopIsHygienic(f.base, f.kind, p, depth, counter, mode, scope);
      }
    } else if f.base.Text? {
      StringIsHygienic(false, Scalar, p, true, counter, mode, scope);
    } else {
      FieldsAreHygienic(f.base.spec.fields, Path(Ctx(counter + 1), []), depth + 1, counter + 1, mode, scope);
      BindIsHygienic(FieldsGen(f.base.spec.fields, Path(Ctx(counter + 1), []), depth + 1, counter + 1, mode), p, counter, scope);
    }
  }

  lemma BindIsHygienic(sub: Gen, p: Path, counter: nat, scope: set<nat>)
    requires Hygienic(sub, scope, counter + 1)
    ensures Hygienic(sub.(code := [Assign(Ctx(counter + 1), p)] + sub.code), scope, counter)
  {
    var bind := Assign(Ctx(counter + 1), p);
    AppendFacts([bind], sub.code, scope);
    assert [bind][1..] == [];
    assert AllBoundCtx([bind]) == [counter + 1];
    assert [counter + 1] + Range(counter + 2, sub.counter + 1) == Range(counter + 1, sub.counter + 1);
  }

  lemma {:induction false} ChunksAreHygienic(fs: seq<Field>, ctx: Path, depth: nat, counter: nat, mode: Mode, scope: set<nat>)
    requires Below(scope, depth)
    ensures Hygienic(ChunksGen(fs, ctx, depth, counter, mode), scope, counter)
    decreases fs, 2
  {
    if fs == [] {
      PlainIsHygienic(Gen([], counter, []), scope);
    } else {
      var k := ChunkLength(fs);
      if k > 0 {
        SimpleIsHygienic(fs[..k], ctx, counter, mode, scope);
        ChunksAreHygienic(fs[k..], ctx, depth, counter, mode, scope);
        ThenIsHygienic(SimpleGen(fs[..k], ctx, counter, mode), ChunksGen(fs[k..], ctx, depth, counter, mode), scope, counter);
      } else {
        var first := ComplexGen(fs[0], ctx, depth, counter, mode);
        ComplexIsHygienic(fs[0], ctx, depth, counter, mode, scope);
        ChunksAreHygienic(fs[1..], ctx, depth, first.counter, mode, scope);
        ThenIsHygienic(first, ChunksGen(fs[1..], ctx, depth, first.counter, mode), scope, counter);
      }
    }
  }

  lemma {:induction false} FieldsAreHygienic(fs: seq<Field>, ctx: Path, depth: nat, counter: nat, mode: Mode, scope: set<nat>)
    requires Below(scope, depth)
    ensures Hygienic(FieldsGen(fs, ctx, depth, counter, mode), scope, counter)
    decreases fs, 3
  {
    if mode.Serialize? && fs == [] {
      PlainIsHygienic(Gen([Pass], counter, []), scope);
    } else {
      ChunksAreHygienic(fs, ctx, depth, counter, mode, scope);
    }
  }

  /** Both generated methods: fresh `_v<N>` names, distinct nested loop variables, and every struct defined. */
  lemma GeneratedMethodsAreHygienic(spec: Spec, height: nat, counter: nat)
    ensures Hygienic(SerializeFn(spec, height, counter), {}, counter)
    ensures Hygienic(DeserializeFn(spec, height, counter), {}, counter)
  {
    hide FieldsGen, Flatten, AllBoundCtx, AllMentioned, AllNested, Instantiate, AllPlain;
    NothingBelow(height + 1);
    FieldsAreHygienic(Flatten(spec.fields), Path(Self, []), height + 1, counter, Serialize, {});
    FieldsAreHygienic(Flatten(spec.fields), Path(Self, []), height + 1, counter, Deserialize, {});
    var body := DeserializeBody(spec, height, counter);
    InstantiateFacts(spec.fields);
    AppendFacts(Instantiate(spec.fields) + [ResetEnd], body.code, {});
    AppendFacts(Instantiate(spec.fields), [ResetEnd], {});
    ResetFacts();
    assert DeserializeFn(spec, height, counter).code == Instantiate(spec.fields) + [ResetEnd] + body.code;
  }

  lemma NothingBelow(depth: nat)
    ensures Below({}, depth)
  {
  }

  lemma ResetFacts()
    ensures AllBoundCtx([ResetEnd]) == [] && AllMentioned([ResetEnd]) == {} && AllNested([ResetEnd], {})
  {
    PlainFacts([ResetEnd], {}, {});
  }

  lemma {:induction false} InstantiateFacts(fs: seq<Field>)
    ensures AllBoundCtx(Instantiate(fs)) == [] && AllMentioned(Instantiate(fs)) == {} && AllNested(Instantiate(fs), {})
    decreases fs
  {
    if fs != [] {
      InstantiateFacts(fs[1..]);
      OneInstantiated(fs[0]);
      AppendFacts(InstantiateCode(fs[0]), Instantiate(fs[1..]), {});
    }
  }

  lemma OneInstantiated(f: Field)
    ensures var code := InstantiateCode(f);
      AllBoundCtx(code) == [] && AllMentioned(code) == {} && AllNested(code, {})
  {
    if IsEmbedded(f) {
      var s := InstantiateCode(f)[0];
      PlainFacts(s.thn, {}, {});
      assert [s][1..] == [];
    }
  }
}
