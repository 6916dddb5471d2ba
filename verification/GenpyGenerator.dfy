/**
 The generators with their mutable state: the current field-reference context, the stack of
 outer contexts, the counter behind `_v<N>`, and the record of struct patterns. Every
 method restores the context and the stack, and emits what the functions of Genpy say.
 */
module GenpyGenerator {
  import opened Wrappers
  import opened Sequences
  import opened StructFormat
  import opened Messages
  import opened PyCode
  import opened Genpy
  import opened Flattening

  /** What is appended to the context: a field name, or, with an empty context, a variable. */
  datatype Name = Attr(attrs: seq<string>) | Local(x: Var)

  class Generator {
    var serialContext: Option<Path>
    var contextStack: seq<Option<Path>>
    var counter: nat
    var contextPatterns: seq<string>

    constructor ()
      ensures serialContext == None && contextStack == [] && counter == 0 && contextPatterns == []
    {
      serialContext, contextStack, counter, contextPatterns := None, [], 0, [];
    }

    /** The state after emitting `g`: context and stack as before. */
    twostate predicate Emitted(g: Gen)
      reads this
    {
      && serialContext == old(serialContext) && contextStack == old(contextStack)
      && counter == g.counter && contextPatterns == old(contextPatterns) + g.patterns
    }

    method NextVar() returns (x: Var)
      modifies `counter
      ensures counter == old(counter) + 1 && x == Ctx(counter)
    {
      counter := counter + 1;
      x := Ctx(counter);
    }

    method PushContext(context: Option<Path>)
      modifies `serialContext, `contextStack
      ensures contextStack == old(contextStack) + [old(serialContext)] && serialContext == context
    {
      contextStack := contextStack + [serialContext];
      serialContext := context;
    }

    method PopContext()
      requires contextStack != []
      modifies `serialContext, `contextStack
      ensures contextStack == old(contextStack[..|contextStack| - 1])
      ensures serialContext == old(contextStack[|contextStack| - 1])
    {
      serialContext := contextStack[|contextStack| - 1];
      contextStack := contextStack[..|contextStack| - 1];
    }

    method AddPattern(p: string)
      modifies `contextPatterns
      ensures contextPatterns == old(contextPatterns) + [p]
    {
      contextPatterns := contextPatterns + [p];
    }

    method ClearPatterns()
      modifies `contextPatterns
      ensures contextPatterns == []
    {
      contextPatterns := [];
    }

    /** `pack` and `unpack` compress the pattern and record it. */
    method Reduced(pattern: string) returns (r: string)
      modifies `contextPatterns
      ensures r == Reduce(pattern) && contextPatterns == old(contextPatterns) + [r]
    {
      r := ReducePattern(pattern);
      AddPattern(r);
    }

    /** `_serial_context + name` */
    function Ref(name: Name): Path
      requires serialContext.Some? <==> name.Attr?
      reads this
    {
      match name
      case Attr(attrs) => serialContext.value.Dot(attrs)
      case Local(x) => Path(x, [])
    }

    method SimpleSerializer(fs: seq<Field>, start: nat, end: nat, mode: Mode) returns (code: seq<Stmt>)
      requires start < end <= |fs| && serialContext.Some?
      requires forall i :: start <= i < end ==> IsSimple(fs[i])
      modifies `contextPatterns
      ensures code == SimpleGen(fs[start..end], serialContext.value, counter, mode).code
      ensures contextPatterns == old(contextPatterns) + SimpleGen(fs[start..end], serialContext.value, counter, mode).patterns
    {
      hide Reduce, Items, CalcSize;
      var chunk, ctx := fs[start..end], serialContext.value;
      var base := if end - start > 1 then Path(X, []) else ctx;
      code := if end - start > 1 then [Assign(X, ctx)] else [];
      var reduced := Reduced(StructPattern(chunk));
      if mode.Serialize? {
        code := code + [WriteStruct(reduced, FieldPaths(base, chunk))];
      } else {
        var fixups := BoolConversions(ctx, chunk);
        var read := [StartEnd, Advance(Const(CalcSizeOf(reduced))), ReadStruct(reduced, FieldPaths(base, chunk))] + fixups;
        assert read == ReadChunkCode(chunk, base, ctx);
        code := code + read;
      }
    }

    method BoolConversions(ctx: Path, chunk: seq<Field>) returns (code: seq<Stmt>)
      ensures code == BoolFixups(ctx, chunk)
    {
      code := [];
      for i := 0 to |chunk|
        invariant code + BoolFixups(ctx, chunk[i..]) == BoolFixups(ctx, chunk)
      {
        assert chunk[i..][1..] == chunk[i + 1..];
        if chunk[i].base == Prim(Bool) {
          Associative(code, [ToBool(ctx.Dot(chunk[i].name))], BoolFixups(ctx, chunk[i + 1..]));
          code := code + [ToBool(ctx.Dot(chunk[i].name))];
        }
      }
      assert BoolFixups(ctx, chunk[|chunk|..]) == [];
    }

    method StringSerializer(bytes: bool, kind: Kind, name: Name, mode: Mode) returns (code: seq<Stmt>)
      requires serialContext.Some? <==> name.Attr?
      modifies `contextPatterns
      ensures code == StringGen(bytes, kind, Ref(name), serialContext.Some?, counter, mode).code
      ensures contextPatterns == old(contextPatterns) + StringGen(bytes, kind, Ref(name), serialContext.Some?, counter, mode).patterns
    {
      code := [];
      var v := Ref(name);
      if serialContext.Some? && mode.Serialize? {
        code := [Assign(X, v)];
        v := Path(X, []);
      }
      if !bytes || !kind.FixedLength? {
        code := code + LenCode(v, true, mode);
      }
      if mode.Serialize? {
        if bytes {
          if kind.FixedLength? {
            var asList := Reduced(Dec(kind.n) + "B");
            var asBytes := Reduced(Dec(kind.n) + "s");
            code := code + [IfList(v, [WriteStar(asList, v)], [WriteStruct(asBytes, [v])])];
          } else {
            code := code + [IfList(v, [WriteTextList(v)], [WriteText(v)])];
          }
        } else {
          code := code + [WriteText(v)];
        }
      } else {
        code := code + [StartEnd, Advance(if kind.FixedLength? then Const(kind.n) else LengthVar), Slice(v)];
      }
    }

    method ArraySerializer(f: Field, mode: Mode) returns (code: seq<Stmt>)
      requires !f.kind.Scalar? && serialContext.Some?
      modifies this
      ensures var g := ComplexGen(f, old(serialContext).value, |old(contextStack)|, old(counter), mode);
        code == g.code && Emitted(g)
      decreases f, 1
    {
      if IsByteArray(f.base, f.kind) {
        code := StringSerializer(true, f.kind, Attr(f.name), mode);
      } else if f.base.Prim? {
        code := SimpleArraySerializer(f.base.t, f.kind, f.name, mode);
      } else {
        code := LoopSerializer(f, mode);
      }
    }

    method SimpleArraySerializer(t: Simple, kind: Kind, name: seq<string>, mode: Mode) returns (code: seq<Stmt>)
      requires !kind.Scalar? && serialContext.Some?
      modifies `contextPatterns
      ensures var g := SimpleArrayGen(t, kind, serialContext.value.Dot(name), counter, mode);
        code == g.code && contextPatterns == old(contextPatterns) + g.patterns
    {
      var p := serialContext.value.Dot(name);
      if kind.VarLength? {
        code := LenCode(p, false, mode) + [SetPattern(Code(t))];
        code := code + (if mode.Serialize? then [WritePattern(p)] else [StartEnd, Advance(CalcSizeOfPattern), ReadPattern(p)]);
      } else {
        var pattern := Dec(kind.n) + [Code(t)];
        var reduced := Reduced(pattern);
        code := if mode.Serialize? then [WriteStar(reduced, p)]
                else [StartEnd, Advance(Const(CalcSizeOf(pattern))), ReadStar(reduced, p)];
      }
      if mode.Deserialize? && t.Bool? {
        code := code + [MapBool(p)];
      }
    }

    /** The generic branch: a loop whose variable is named after the height of the context stack. */
    method LoopSerializer(f: Field, mode: Mode) returns (code: seq<Stmt>)
      requires !f.kind.Scalar? && !f.base.Prim? && serialContext.Some?
      modifies this
      ensures var g := LoopGen(f.base, f.kind, old(serialContext).value.Dot(f.name), |old(contextStack)|, old(counter), mode);
        code == g.code && Emitted(g)
      decreases f, 0
    {
      var p := serialContext.value.Dot(f.name);
      var height := |contextStack|;
      var loopVar := Loop(height);
      code := if f.kind.VarLength? then LenCode(p, false, mode) else [];
      var item: seq<Stmt>;
      if f.base.Text? {
        PushContext(None);
        item := StringSerializer(false, Scalar, Local(loopVar), mode);
      } else {
        PushContext(Some(Path(loopVar, [])));
        item := SerializerGenerator(f.base.spec.fields, mode);
      }
      if mode.Serialize? {
        code := code + [ForIn(loopVar, p, item)];
      } else {
        code := code + [SetEmpty(p), ForRange(Times(f.kind), CreateCode(f.base, height) + item + [Append(p, loopVar)])];
      }
      PopContext();
    }

    method ComplexSerializer(f: Field, mode: Mode) returns (code: seq<Stmt>)
      requires !IsSimple(f) && serialContext.Some?
      modifies this
      ensures var g := ComplexGen(f, old(serialContext).value, |old(contextStack)|, old(counter), mode);
        code == g.code && Emitted(g)
      decreases f, 2
    {
      if !f.kind.Scalar? {
        code := ArraySerializer(f, mode);
      } else if f.base.Text? {
        code := StringSerializer(false, Scalar, Attr(f.name), mode);
      } else {
        var p := serialContext.value.Dot(f.name);
        var ctxVar := NextVar();
        PushContext(Some(Path(ctxVar, [])));
        var sub := SerializerGenerator(f.base.spec.fields, mode);
        PopContext();
        code := [Assign(ctxVar, p)] + sub;
      }
    }

    /** The loop that cuts a specification into chunks of simple fields and complex fields. */
    method SerializerGenerator(fs: seq<Field>, mode: Mode) returns (code: seq<Stmt>)
      requires serialContext.Some?
      modifies this
      ensures var g := FieldsGen(fs, old(serialContext).value, |old(contextStack)|, old(counter), mode);
        code == g.code && Emitted(g)
      decreases fs, 4
    {
      if mode.Serialize? && fs == [] {
        return [Pass];
      }
      assert FieldsGen(fs, serialContext.value, |contextStack|, counter, mode) == ChunksGen(fs, serialContext.value, |contextStack|, counter, mode);
      code := ChunkLoop(fs, mode);
    }

    /** One chunk, added to the ghost record of what has been emitted. */
    method Chunk(fs: seq<Field>, start: nat, end: nat, mode: Mode, ghost done: Gen) returns (code: seq<Stmt>, ghost done': Gen)
      requires start < end <= |fs| && serialContext.Some?
      requires (forall k :: start <= k < end ==> IsSimple(fs[k])) && (end < |fs| ==> !IsSimple(fs[end]))
      requires done.counter == counter
      modifies `contextPatterns
      ensures done' == Gen(done.code + code, counter, done'.patterns)
      ensures forall before :: old(contextPatterns) == before + done.patterns ==> contextPatterns == before + done'.patterns
      ensures done.Then(ChunksGen(fs[start..], serialContext.value, |contextStack|, counter, mode))
              == done'.Then(ChunksGen(fs[end..], serialContext.value, |contextStack|, counter, mode))
    {
      hide ChunksGen, SimpleGen, ChunkLength;
      ChunkThenRest(done, fs, start, end, serialContext.value, |contextStack|, counter, mode);
      ghost var g := SimpleGen(fs[start..end], serialContext.value, counter, mode);
      code := SimpleSerializer(fs, start, end, mode);
      done' := done.Then(g);
      forall before | old(contextPatterns) == before + done.patterns ensures contextPatterns == before + done'.patterns {
        Associative(before, done.patterns, g.patterns);
      }
    }

    method ChunkLoop(fs: seq<Field>, mode: Mode) returns (code: seq<Stmt>)
      requires serialContext.Some?
      modifies this
      ensures var g := ChunksGen(fs, old(serialContext).value, |old(contextStack)|, old(counter), mode);
        code == g.code && Emitted(g)
      decreases fs, 3
    {
      hide ChunksGen, ComplexGen, SimpleGen, ChunkLength;
      ghost var ctx, depth := serialContext.value, |contextStack|;
      ghost var done := Gen([], counter, []);
      var curr := 0;
      code := [];
      NothingDone(fs, ctx, depth, counter, mode);
      for i := 0 to |fs|
        invariant curr <= i && serialContext == old(serialContext) && contextStack == old(contextStack)
        invariant forall k :: curr <= k < i ==> IsSimple(fs[k])
        invariant done == Gen(code, counter, done.patterns) && contextPatterns == old(contextPatterns) + done.patterns
        invariant ChunksGen(fs, ctx, depth, old(counter), mode) == done.Then(ChunksGen(fs[curr..], ctx, depth, counter, mode))
      {
        if !IsSimple(fs[i]) {
          if i != curr {
            var chunk;
            chunk, done := Chunk(fs, curr, i, mode, done);
            code := code + chunk;
          }
          curr := i + 1;
          ComplexThenRest(done, fs, i, ctx, depth, counter, mode);
          done := done.Then(ComplexGen(fs[i], ctx, depth, counter, mode));
          var complex := ComplexSerializer(fs[i], mode);
          code := code + complex;
        }
      }
      if curr < |fs| {
        var chunk;
        chunk, done := Chunk(fs, curr, |fs|, mode, done);
        code := code + chunk;
      }
      NothingLeft(done, fs, curr, ctx, depth, counter, mode);
    }

    method SerializeMethod(spec: Spec) returns (code: seq<Stmt>)
      modifies this
      ensures var g := SerializeFn(spec, |old(contextStack)|, old(counter));
        code == g.code && Emitted(g)
    {
      PushContext(Some(Path(Self, [])));
      var flat := FlattenSpec(spec.fields);
      code := SerializerGenerator(flat, Serialize);
      PopContext();
    }

    method DeserializeMethod(spec: Spec) returns (code: seq<Stmt>)
      modifies this
      ensures var g := DeserializeFn(spec, |old(contextStack)|, old(counter));
        code == g.code && Emitted(g)
    {
      code := InstantiateFields(spec.fields);
      code := code + [ResetEnd];
      PushContext(Some(Path(Self, [])));
      var flat := FlattenSpec(spec.fields);
      var body := SerializerGenerator(flat, Deserialize);
      PopContext();
      code := code + body;
    }

    method InstantiateFields(fs: seq<Field>) returns (code: seq<Stmt>)
      ensures code == Instantiate(fs)
    {
      code := [];
      for i := 0 to |fs|
        invariant code + Instantiate(fs[i..]) == Instantiate(fs)
      {
        ghost var rest := Instantiate(fs[i + 1..]);
        assert fs[i..][1..] == fs[i + 1..];
        if IsEmbedded(fs[i]) {
          var p := Path(Self, fs[i].name);
          Associative(code, [IfNone(p, [New(p, fs[i].base.spec)])], rest);
          code := code + [IfNone(p, [New(p, fs[i].base.spec)])];
        }
      }
      assert Instantiate(fs[|fs|..]) == [];
    }

    /** Defining the struct objects at the end of a module; "I" is predefined. */
    method DefineStructs() returns (defined: set<string>)
      modifies `contextPatterns
      ensures defined == Epilogue(old(contextPatterns)) && contextPatterns == []
    {
      defined := {"I"};
      for i := 0 to |contextPatterns|
        invariant contextPatterns == old(contextPatterns)
        invariant defined == Epilogue(contextPatterns[..i])
      {
        if contextPatterns[i] != "I" {
          defined := defined + {contextPatterns[i]};
        }
      }
      assert contextPatterns[..|contextPatterns|] == contextPatterns;
      ClearPatterns();
    }
  }

  lemma ThenAssociates(a: Gen, b: Gen, c: Gen)
    ensures a.Then(b.Then(c)) == a.Then(b).Then(c)
  {
    Associative(a.code, b.code, c.code);
    Associative(a.patterns, b.patterns, c.patterns);
  }

  lemma NothingDone(fs: seq<Field>, ctx: Path, depth: nat, counter: nat, mode: Mode)
    ensures ChunksGen(fs, ctx, depth, counter, mode) == Gen([], counter, []).Then(ChunksGen(fs[0..], ctx, depth, counter, mode))
  {
    assert fs[0..] == fs;
  }

  lemma NothingLeft(done: Gen, fs: seq<Field>, curr: nat, ctx: Path, depth: nat, counter: nat, mode: Mode)
    requires curr <= |fs| && done.counter == counter
    ensures curr == |fs| ==> done.Then(ChunksGen(fs[curr..], ctx, depth, counter, mode)) == done
    ensures done.Then(ChunksGen(fs[|fs|..], ctx, depth, counter, mode)) == done
  {
    assert ChunksGen(fs[|fs|..], ctx, depth, counter, mode) == Gen([], counter, []);
  }

  lemma {:induction false} ChunkLengthIs(fs: seq<Field>, k: nat)
    requires k <= |fs| && (forall i :: 0 <= i < k ==> IsSimple(fs[i])) && (k < |fs| ==> !IsSimple(fs[k]))
    ensures ChunkLength(fs) == k
  {
  }

  /** A maximal run of simple fields is emitted as one chunk. */
  lemma ChunkThenRest(done: Gen, fs: seq<Field>, curr: nat, i: nat, ctx: Path, depth: nat, counter: nat, mode: Mode)
    requires curr < i <= |fs| && (forall k :: curr <= k < i ==> IsSimple(fs[k])) && (i < |fs| ==> !IsSimple(fs[i]))
    ensures done.Then(ChunksGen(fs[curr..], ctx, depth, counter, mode))
            == done.Then(SimpleGen(fs[curr..i], ctx, counter, mode)).Then(ChunksGen(fs[i..], ctx, depth, counter, mode))
  {
    var rest := fs[curr..];
    ChunkLengthIs(rest, i - curr);
    assert rest[..i - curr] == fs[curr..i] && rest[i - curr..] == fs[i..];
    ThenAssociates(done, SimpleGen(fs[curr..i], ctx, counter, mode), ChunksGen(fs[i..], ctx, depth, counter, mode));
  }

  lemma ComplexThenRest(done: Gen, fs: seq<Field>, i: nat, ctx: Path, depth: nat, counter: nat, mode: Mode)
    requires i < |fs| && !IsSimple(fs[i])
    ensures var g := ComplexGen(fs[i], ctx, depth, counter, mode);
      done.Then(ChunksGen(fs[i..], ctx, depth, counter, mode))
      == done.Then(g).Then(ChunksGen(fs[i + 1..], ctx, depth, g.counter, mode))
  {
    assert fs[i..][0] == fs[i] && fs[i..][1..] == fs[i + 1..];
    var g := ComplexGen(fs[i], ctx, depth, counter, mode);
    ThenAssociates(done, g, ChunksGen(fs[i + 1..], ctx, depth, g.counter, mode));
  }
}
