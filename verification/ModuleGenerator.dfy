/**
 One generated module: the two methods and the struct objects it defines at its end, emitted by
 one generator in that order. The module is closed, its numbered variables differ throughout,
 and running it does what the message compiler is for.
 */
module ModuleGenerator {
  import opened Wrappers
  import opened Sequences
  import opened Messages
  import opened PyCode
  import opened Genpy
  import opened GenpyGenerator
  import opened Hygiene
  import opened MessageCompiler
  import opened Serialization

  datatype Code = Code(serialize: seq<Stmt>, deserialize: seq<Stmt>, structs: set<string>)

  /** What is emitted for a specification, starting with a stack of some height and some counter. */
  function Generated(spec: Spec, height: nat, counter: nat): Code
  {
    var first := SerializeFn(spec, height, counter);
    var second := DeserializeFn(spec, height, first.counter);
    Code(first.code, second.code, Epilogue(first.patterns + second.patterns))
  }

  /** `msg_generator`, as far as the methods and the struct objects go. */
  method GenerateModule(g: Generator, spec: Spec) returns (code: Code)
    modifies g
    ensures code == Generated(spec, |old(g.contextStack)|, old(g.counter))
    ensures g.contextPatterns == [] && g.contextStack == old(g.contextStack) && g.serialContext == old(g.serialContext)
    ensures SelfContained(code, old(g.counter), g.counter)
  {
    hide SerializeFn, DeserializeFn, Epilogue, SelfContained;
    ghost var height, counter := |g.contextStack|, g.counter;
    g.ClearPatterns();
    var serialize := g.SerializeMethod(spec);
    ghost var first := SerializeFn(spec, height, counter);
    assert [] + first.patterns == first.patterns;
    var deserialize := g.DeserializeMethod(spec);
    var structs := g.DefineStructs();
    code := Code(serialize, deserialize, structs);
    GeneratedIsSelfContained(spec, height, counter);
  }

  /**
   Every struct object mentioned is defined; the numbers of the `_v<N>` variables of both
   methods are all different and none was given out before; no loop reuses the variable of a
   loop around it.
   */
  ghost predicate SelfContained(code: Code, before: nat, after: nat)
  {
    && AllMentioned(code.serialize) + AllMentioned(code.deserialize) <= code.structs
    && NoDup(AllBoundCtx(code.serialize) + AllBoundCtx(code.deserialize))
    && (forall n <- AllBoundCtx(code.serialize) + AllBoundCtx(code.deserialize) :: before < n <= after)
    && AllNested(code.serialize, {}) && AllNested(code.deserialize, {})
  }

  lemma GeneratedIsSelfContained(spec: Spec, height: nat, counter: nat)
    ensures var after := DeserializeFn(spec, height, SerializeFn(spec, height, counter).counter).counter;
      SelfContained(Generated(spec, height, counter), counter, after)
  {
    hide SerializeFn, DeserializeFn, AllMentioned, AllBoundCtx, AllNested;
    var first := SerializeFn(spec, height, counter);
    GeneratedMethodsAreHygienic(spec, height, counter);
    GeneratedMethodsAreHygienic(spec, height, first.counter);
    var second := DeserializeFn(spec, height, first.counter);
    RangesJoin(counter + 1, first.counter + 1, second.counter + 1);
  }

  lemma RangesJoin(lo: nat, mid: nat, hi: nat)
    requires lo <= mid <= hi
    ensures Range(lo, mid) + Range(mid, hi) == Range(lo, hi) && NoDup(Range(lo, hi))
    ensures forall n <- Range(lo, hi) :: lo <= n < hi
  {
  }

  /**
   A message sent with a generated module and received with it, nothing but the module's own
   struct objects being defined, is rebuilt if and only if it holds no fixed-length array whose
   declared length has two adjacent nines.
   */
  lemma GeneratedModuleRoundTrips(spec: Spec, v: Value, self: Value, height: nat, counter: nat, sender: State, receiver: State)
    requires ValidFields(spec.fields) && Typed(spec, v, true)
    requires sender.vars == Entered(sender.vars, v) && sender.buff == []
    requires Fresh(spec.fields, self) && receiver.vars == Entered(receiver.vars, self)
    ensures
      var code := Generated(spec, height, counter);
      var r := Exchanged(code.serialize, code.deserialize, sender, receiver, code.structs);
      (r.Some? && Lookup(r.value.vars, Path(Self, [])) == Some(v)) <==> !DamagedFields(Serialize, spec.fields, v)
    ensures
      var code := Generated(spec, height, counter);
      var r := Exchanged(code.serialize, code.deserialize, sender, receiver, code.structs);
      !DamagedFields(Serialize, spec.fields, v) ==> r.value.end == |Encode(spec, v)|
  {
    hide SerializeFn, DeserializeFn, Exec, Lookup, Encode, DamagedFields, ValidFields, Fresh, Typed, Epilogue;
    var next := SerializeFn(spec, height, counter).counter;
    RoundTrip(spec, v, self, height, counter, next, sender, receiver, Generated(spec, height, counter).structs);
  }
}
