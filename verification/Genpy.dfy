/**
 What the serializer generators emit, as functions of a field list, the variable context
 the fields are reached through, the height of the context stack, and the counter behind
 the `_v<N>` names. The class in GenpyGenerator.dfy computes these by mutating its state.
 */
module Genpy {
  import opened Wrappers
  import opened StructFormat
  import opened Messages
  import opened PyCode

  /** Emitted code, the counter afterwards, and the struct patterns recorded. */
  datatype Gen = Gen(code: seq<Stmt>, counter: nat, patterns: seq<string>) {
    function Then(g: Gen): Gen { Gen(code + g.code, g.counter, patterns + g.patterns) }
  }

  datatype Mode = Serialize | Deserialize

  // ---------------------------------------------------------------- leaves

  /** compute_struct_pattern */
  function StructPattern(fs: seq<Field>): (p: string)
    requires forall i :: 0 <= i < |fs| ==> IsSimple(fs[i])
    ensures |p| == |fs| && AllCodes(p)
  {
    seq(|fs|, i requires 0 <= i < |fs| && IsSimple(fs[i]) => Code(fs[i].base.t))
  }

  /** struct.calcsize on a format string */
  function CalcSizeOf(pattern: string): nat
  {
    match Items(pattern) case Some(items) => CalcSize(items) case None => 0
  }

  function FieldPaths(base: Path, fs: seq<Field>): (ps: seq<Path>)
    ensures |ps| == |fs|
  {
    seq(|fs|, i requires 0 <= i < |fs| => base.Dot(fs[i].name))
  }

  function BoolFixups(ctx: Path, fs: seq<Field>): seq<Stmt>
  {
    if fs == [] then []
    else (if fs[0].base == Prim(Bool) then [ToBool(ctx.Dot(fs[0].name))] else []) + BoolFixups(ctx, fs[1..])
  }

  function ReadChunkCode(fs: seq<Field>, base: Path, ctx: Path): seq<Stmt>
    requires forall i :: 0 <= i < |fs| ==> IsSimple(fs[i])
  {
    var pattern := Reduce(StructPattern(fs));
    [StartEnd, Advance(Const(CalcSizeOf(pattern))), ReadStruct(pattern, FieldPaths(base, fs))] + BoolFixups(ctx, fs)
  }

  /** simple_serializer_generator on one chunk */
  function SimpleGen(fs: seq<Field>, ctx: Path, counter: nat, mode: Mode): (g: Gen)
    requires forall i :: 0 <= i < |fs| ==> IsSimple(fs[i])
    ensures g.counter == counter
  {
    var prologue := if |fs| > 1 then [Assign(X, ctx)] else [];
    var base := if |fs| > 1 then Path(X, []) else ctx;
    var pattern := Reduce(StructPattern(fs));
    var body := if mode.Serialize? then [WriteStruct(pattern, FieldPaths(base, fs))] else ReadChunkCode(fs, base, ctx);
    Gen(prologue + body, counter, [pattern])
  }

  /** len_serializer_generator */
  function LenCode(p: Path, isString: bool, mode: Mode): seq<Stmt>
  {
    if mode.Serialize? then [Len(p)] + (if isString then [] else [WriteLength])
    else [StartEnd, Advance(Const(4)), ReadLength]
  }

  /** string_serializer_generator; a string itself has kind Scalar and is not `bytes`. */
  function StringGen(bytes: bool, kind: Kind, p: Path, inContext: bool, counter: nat, mode: Mode): Gen
  {
    var optimize := inContext && mode.Serialize?;
    var prologue := if optimize then [Assign(X, p)] else [];
    var v := if optimize then Path(X, []) else p;
    var fixed := bytes && kind.FixedLength?;
    var len := if fixed then [] else LenCode(v, true, mode);
    if mode.Deserialize? then
      var amount := if kind.FixedLength? then Const(kind.n) else LengthVar;
      Gen(prologue + len + [StartEnd, Advance(amount), Slice(v)], counter, [])
    else if !bytes then
      Gen(prologue + len + [WriteText(v)], counter, [])
    else if fixed then
      var asList, asBytes := Reduce(Dec(kind.n) + "B"), Reduce(Dec(kind.n) + "s");
      Gen(prologue + [IfList(v, [WriteStar(asList, v)], [WriteStruct(asBytes, [v])])], counter, [asList, asBytes])
    else
      Gen(prologue + len + [IfList(v, [WriteTextList(v)], [WriteText(v)])], counter, [])
  }

  /** The branch of array_serializer_generator for arrays of simple types. */
  function SimpleArrayGen(t: Simple, kind: Kind, p: Path, counter: nat, mode: Mode): Gen
    requires !kind.Scalar?
  {
    var fixups := if mode.Deserialize? && t.Bool? then [MapBool(p)] else [];
    match kind
    case VarLength =>
      Gen(LenCode(p, false, mode) + [SetPattern(Code(t))] +
          (if mode.Serialize? then [WritePattern(p)] else [StartEnd, Advance(CalcSizeOfPattern), ReadPattern(p)]) +
          fixups, counter, [])
    case FixedLength(n) =>
      var pattern := Dec(n) + [Code(t)];
      var reduced := Reduce(pattern);
      Gen((if mode.Serialize? then [WriteStar(reduced, p)]
           else [StartEnd, Advance(Const(CalcSizeOf(pattern))), ReadStar(reduced, p)]) + fixups,
          counter, [reduced])
  }

  // ---------------------------------------------------------------- recursion

  /** The code for one array element, held by the loop variable. */
  function ItemGen(base: Base, depth: nat, counter: nat, mode: Mode): (g: Gen)
    requires !base.Prim?
    ensures g.counter >= counter
    decreases base, 0
  {
    var item := Path(Loop(depth), []);
    if base.Text? then StringGen(false, Scalar, item, false, counter, mode)
    else FieldsGen(base.spec.fields, item, depth + 1, counter, mode)
  }

  function CreateCode(base: Base, depth: nat): seq<Stmt>
  {
    if base.Embedded? then [New(Path(Loop(depth), []), base.spec)] else []
  }

  function Times(kind: Kind): Amount
  {
    match kind case FixedLength(n) => Const(n) case _ => LengthVar
  }

  /** The loop of array_serializer_generator; `depth` is the height of the context stack. */
  function LoopGen(base: Base, kind: Kind, p: Path, depth: nat, counter: nat, mode: Mode): (g: Gen)
    requires !kind.Scalar? && !base.Prim?
    ensures g.counter >= counter
    decreases base, 1
  {
    var inner := ItemGen(base, depth, counter, mode);
    var len := if kind.VarLength? then LenCode(p, false, mode) else [];
    if mode.Serialize? then
      inner.(code := len + [ForIn(Loop(depth), p, inner.code)])
    else
      var body := CreateCode(base, depth) + inner.code + [Append(p, Loop(depth))];
      inner.(code := len + [SetEmpty(p), ForRange(Times(kind), body)])
  }

  /** complex_serializer_generator */
  function ComplexGen(f: Field, ctx: Path, depth: nat, counter: nat, mode: Mode): (g: Gen)
    requires !IsSimple(f)
    ensures g.counter >= counter
    decreases f, 1
  {
    var p := ctx.Dot(f.name);
    if !f.kind.Scalar? then
      if IsByteArray(f.base, f.kind) then StringGen(true, f.kind, p, true, counter, mode)
      else if f.base.Prim? then SimpleArrayGen(f.base.t, f.kind, p, counter, mode)
      else LoopGen(f.base, f.kind, p, depth, counter, mode)
    else if f.base.Text? then StringGen(false, Scalar, p, true, counter, mode)
    else
      var sub := FieldsGen(f.base.spec.fields, Path(Ctx(counter + 1), []), depth + 1, counter + 1, mode);
      sub.(code := [Assign(Ctx(counter + 1), p)] + sub.code)
  }

  /** The number of leading fields that make one chunk. */
  function ChunkLength(fs: seq<Field>): (k: nat)
    ensures k <= |fs|
    ensures forall i :: 0 <= i < k ==> IsSimple(fs[i])
    ensures k < |fs| ==> !IsSimple(fs[k])
  {
    if fs == [] || !IsSimple(fs[0]) then 0 else 1 + ChunkLength(fs[1..])
  }

  /** The loop of serializer_generator: chunks of simple fields between complex ones. */
  function ChunksGen(fs: seq<Field>, ctx: Path, depth: nat, counter: nat, mode: Mode): (g: Gen)
    ensures g.counter >= counter
    decreases fs, 2
  {
    if fs == [] then Gen([], counter, [])
    else
      var k := ChunkLength(fs);
      if k > 0 then
        SimpleGen(fs[..k], ctx, counter, mode).Then(ChunksGen(fs[k..], ctx, depth, counter, mode))
      else
        var first := ComplexGen(fs[0], ctx, depth, counter, mode);
        first.Then(ChunksGen(fs[1..], ctx, depth, first.counter, mode))
  }

  /** serializer_generator */
  function FieldsGen(fs: seq<Field>, ctx: Path, depth: nat, counter: nat, mode: Mode): (g: Gen)
    ensures g.counter >= counter
    decreases fs, 3
  {
    if mode.Serialize? && fs == [] then Gen([Pass], counter, [])
    else ChunksGen(fs, ctx, depth, counter, mode)
  }

  /** serialize_fn_generator, on a flattened specification, starting with a context stack of some height. */
  function SerializeFn(spec: Spec, height: nat, counter: nat): Gen
  {
    FieldsGen(Flatten(spec.fields), Path(Self, []), height + 1, counter, Serialize)
  }

  /** Recreating embedded messages that are None. */
  function Instantiate(fs: seq<Field>): seq<Stmt>
  {
    if fs == [] then []
    else
      var p := Path(Self, fs[0].name);
      (if IsEmbedded(fs[0]) then [IfNone(p, [New(p, fs[0].base.spec)])] else []) + Instantiate(fs[1..])
  }

  function DeserializeBody(spec: Spec, height: nat, counter: nat): Gen
  {
    FieldsGen(Flatten(spec.fields), Path(Self, []), height + 1, counter, Deserialize)
  }

  /** deserialize_fn_generator */
  function DeserializeFn(spec: Spec, height: nat, counter: nat): Gen
  {
    var body := DeserializeBody(spec, height, counter);
    body.(code := Instantiate(spec.fields) + [ResetEnd] + body.code)
  }

  /** The `_struct_<p>` names that the end of a generated module defines. */
  function Epilogue(patterns: seq<string>): set<string>
  {
    {"I"} + set p <- patterns
  }
}
