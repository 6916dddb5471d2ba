/** The message compiler as a whole: what generated `serialize` and `deserialize` methods do. */
module MessageCompiler {
  import opened Wrappers
  import opened StructFormat
  import opened Messages
  import opened Attributes
  import opened PyCode
  import opened Genpy
  import opened Serialization
  import opened Deserialization
  import opened Flattening
  import opened DamagedReading
  import opened AnyInput

  /** A method body starts with its object in `self`; other variables are arbitrary. */
  function Entered(vars: map<Var, Slot>, self: Value): map<Var, Slot>
  {
    vars[Self := Own(self)]
  }

  /**
   The generated serialize code writes exactly the naive encoding of the unflattened
   specification, if and only if the message holds no fixed-length array of numbers or
   bytes whose declared length has two adjacent nines.
   */
  lemma SerializeWritesTheEncoding(spec: Spec, v: Value, height: nat, counter: nat, st: State, env: Env)
    requires Typed(spec, v, false)
    requires Epilogue(SerializeFn(spec, height, counter).patterns) <= env.structs
    requires st.vars == Entered(st.vars, v)
    ensures
      var r := Exec(SerializeFn(spec, height, counter).code, st, env);
      (r.Some? && r.value.buff == st.buff + Encode(spec, v)) <==> !DamagedFields(Serialize, spec.fields, v)
  {
    var self := Path(Self, []);
    assert Lookup(st.vars, self) == Some(v);
    FlattenTyped(spec.fields, v, false);
    FlattenEncodes(spec.fields, v);
    FlattenDamage(Serialize, spec.fields, v);
    FieldsWrite(Flatten(spec.fields), self, height + 1, counter, st, env, v);
  }

  /** Where the code falls short, it raises or leaves bytes out. */
  lemma DamagedMessagesLoseBytes(spec: Spec, v: Value, height: nat, counter: nat, st: State, env: Env)
    requires Typed(spec, v, false) && DamagedFields(Serialize, spec.fields, v)
    requires Epilogue(SerializeFn(spec, height, counter).patterns) <= env.structs
    requires st.vars == Entered(st.vars, v)
    ensures
      var r := Exec(SerializeFn(spec, height, counter).code, st, env);
      r.None? || |r.value.buff| < |st.buff| + |Encode(spec, v)|
  {
    var self := Path(Self, []);
    assert Lookup(st.vars, self) == Some(v);
    FlattenTyped(spec.fields, v, false);
    FlattenEncodes(spec.fields, v);
    FlattenDamage(Serialize, spec.fields, v);
    FieldsWrite(Flatten(spec.fields), self, height + 1, counter, st, env, v);
  }

  // ---------------------------------------------------------------- deserialize

  /** What `deserialize` accepts as `self`: every slot is there, embedded messages may be None. */
  predicate Fresh(fs: seq<Field>, o: Value)
  {
    && o.Rec? && o.m.Keys == Names(fs)
    && forall i :: 0 <= i < |fs| && IsEmbedded(fs[i]) ==>
         var x := FieldOf(o, fs[i].name);
         x.NoneValue? || Shaped(fs[i].base.spec.fields, x)
  }

  predicate Instantiable(fs: seq<Field>, o: Value)
  {
    && o.Rec? && AllApart(fs) && EmbeddedValid(fs)
    && (forall i :: 0 <= i < |fs| ==> fs[i].name != [] && Get(o, fs[i].name).Some?)
    && (forall i :: 0 <= i < |fs| && IsEmbedded(fs[i]) ==>
          var x := FieldOf(o, fs[i].name);
          x.NoneValue? || Shaped(fs[i].base.spec.fields, x))
  }

  /** What the field's `if self.x is None` line makes of the object. */
  function Instantiated(f: Field, o: Value): Value
  {
    if IsEmbedded(f) && FieldOf(o, f.name).NoneValue? then Assigned(o, f.name, DefaultBase(f.base)) else o
  }

  function InstantiateCode(f: Field): seq<Stmt>
  {
    var p := Path(Self, f.name);
    if IsEmbedded(f) then [IfNone(p, [New(p, f.base.spec)])] else []
  }

  lemma RunIfNone(p: Path, create: Stmt, st: State, env: Env, x: Value)
    requires Lookup(st.vars, p) == Some(x)
    ensures Exec([IfNone(p, [create])], st, env) == if x.NoneValue? then Run(create, st, env) else Some(st)
  {
    ExecSingle(IfNone(p, [create]), st, env);
    ExecSingle(create, st, env);
  }

  lemma RunInstantiate(f: Field, o: Value, st: State, env: Env)
    requires o.Rec? && f.name != [] && Get(o, f.name).Some? && st.vars == Entered(st.vars, o)
    ensures Exec(InstantiateCode(f), st, env) == Some(st.(vars := Entered(st.vars, Instantiated(f, o))))
  {
    if IsEmbedded(f) {
      var self, p := Path(Self, []), Path(Self, f.name);
      var create := New(p, f.base.spec);
      assert self.Dot(f.name) == p && Lookup(st.vars, self) == Some(o);
      LookupDot(st.vars, self, f.name);
      RunIfNone(p, create, st, env, FieldOf(o, f.name));
      StoreDot(st.vars, self, f.name, o, DefaultBase(f.base));
    }
  }

  lemma InstantiatedShape(f: Field, o: Value)
    requires o.Rec? && f.name != [] && Get(o, f.name).Some?
    requires IsEmbedded(f) ==> ValidFields(f.base.spec.fields)
    requires IsEmbedded(f) ==> FieldOf(o, f.name).NoneValue? || Shaped(f.base.spec.fields, FieldOf(o, f.name))
    ensures IsEmbedded(f) ==> Shaped(f.base.spec.fields, FieldOf(Instantiated(f, o), f.name))
    ensures Instantiated(f, o).Rec? && Instantiated(f, o).m.Keys == o.m.Keys
    ensures forall b :: Apart(f.name, b) ==> Get(Instantiated(f, o), b) == Get(o, b)
  {
    if IsEmbedded(f) && FieldOf(o, f.name).NoneValue? {
      DefaultShaped(f.base.spec.fields);
      GetAfterSet(o, f.name, DefaultBase(f.base));
      forall b | Apart(f.name, b) ensures Get(Instantiated(f, o), b) == Get(o, b) {
        SetElsewhere(o, f.name, b, DefaultBase(f.base));
      }
    }
  }

  lemma InstantiableTail(fs: seq<Field>, o: Value)
    requires fs != [] && Instantiable(fs, o)
    ensures Instantiable(fs[1..], Instantiated(fs[0], o))
  {
    var f, rest, o1 := fs[0], fs[1..], Instantiated(fs[0], o);
    InstantiatedShape(f, o);
    assert forall i :: 0 <= i < |rest| ==> rest[i] == fs[i + 1];
    forall i | 0 <= i < |rest| ensures Get(o1, rest[i].name) == Get(o, rest[i].name) {
      assert Apart(fs[0].name, fs[i + 1].name);
    }
  }

  lemma {:induction false} InstantiateShapes(fs: seq<Field>, o: Value, st: State, env: Env) returns (o': Value)
    requires Instantiable(fs, o) && st.vars == Entered(st.vars, o)
    ensures Exec(Instantiate(fs), st, env) == Some(st.(vars := Entered(st.vars, o')))
    ensures o'.Rec? && o'.m.Keys == o.m.Keys
    ensures forall i :: 0 <= i < |fs| && IsEmbedded(fs[i]) ==> Shaped(fs[i].base.spec.fields, FieldOf(o', fs[i].name))
    ensures forall b :: (forall i :: 0 <= i < |fs| ==> Apart(fs[i].name, b)) ==> Get(o', b) == Get(o, b)
    decreases fs
  {
    if fs == [] {
      o' := o;
    } else {
      var f, rest := fs[0], fs[1..];
      var o1 := Instantiated(f, o);
      RunInstantiate(f, o, st, env);
      InstantiatedShape(f, o);
      InstantiableTail(fs, o);
      o' := InstantiateShapes(rest, o1, st.(vars := Entered(st.vars, o1)), env);
      ExecAppend(InstantiateCode(f), Instantiate(rest), st, env);
      assert Instantiate(fs) == InstantiateCode(f) + Instantiate(rest);
      assert Entered(Entered(st.vars, o1), o') == Entered(st.vars, o');
      forall i | 0 <= i < |rest| ensures Apart(rest[i].name, f.name) {
        assert Apart(fs[0].name, fs[i + 1].name);
      }
      assert Get(o', f.name) == Get(o1, f.name);
    }
  }

  lemma FreshIsInstantiable(fs: seq<Field>, o: Value)
    requires ValidFields(fs) && Fresh(fs, o)
    ensures Instantiable(fs, o)
  {
    forall i | 0 <= i < |fs| ensures Get(o, fs[i].name).Some? {
      var s := fs[i].name[0];
      assert s in fs[i].name && fs[i].name == [s];
      GetOne(o, s);
    }
  }

  /**
   The generated deserialize code, run on an encoded message with any bytes after it, makes
   `self` equal to the message and stops exactly behind it, if and only if the message holds no
   fixed-length array of numbers other than bytes whose declared length has two adjacent nines.
   Otherwise it raises.
   */
  lemma DeserializeRebuildsTheMessage(spec: Spec, v: Value, tail: seq<Byte>, self: Value, height: nat, counter: nat, st: State, env: Env)
    requires ValidFields(spec.fields) && Typed(spec, v, true)
    requires Fresh(spec.fields, self) && st.vars == Entered(st.vars, self)
    requires Epilogue(DeserializeFn(spec, height, counter).patterns) <= env.structs
    requires env.input == Encode(spec, v) + tail
    ensures
      var r := Exec(DeserializeFn(spec, height, counter).code, st, env);
      (r.Some? && Lookup(r.value.vars, Path(Self, [])) == Some(v) && r.value.end == |Encode(spec, v)|)
      <==> !DamagedFields(Deserialize, spec.fields, v)
    ensures DamagedFields(Deserialize, spec.fields, v) ==> Exec(DeserializeFn(spec, height, counter).code, st, env).None?
  {
    hide Exec, Lookup, Encode, Instantiate, DeserializeBody, Epilogue, ValidFields, Fresh, Shaped, DamagedFields;
    var o, st1 := ReadingStarts(spec, self, height, counter, st, env);
    BodyPatterns(spec, height, counter, env);
    if DamagedFields(Deserialize, spec.fields, v) {
      BodyRaises(spec, v, tail, o, height, counter, st1, env);
    } else {
      var st' := BodyReads(spec, v, tail, o, height, counter, st1, env);
    }
  }

  /** Past the instantiation and `end = 0`. */
  lemma ReadingStarts(spec: Spec, self: Value, height: nat, counter: nat, st: State, env: Env) returns (o: Value, st1: State)
    requires ValidFields(spec.fields) && Fresh(spec.fields, self) && st.vars == Entered(st.vars, self)
    ensures Exec(DeserializeFn(spec, height, counter).code, st, env) == Exec(DeserializeBody(spec, height, counter).code, st1, env)
    ensures Shaped(spec.fields, o) && st1.vars == Entered(st1.vars, o) && st1.end == 0
  {
    o := InstantiateFresh(spec.fields, self, st, env);
    var st0 := st.(vars := Entered(st.vars, o));
    st1 := st0.(end := 0);
    ResetBetween(Instantiate(spec.fields), DeserializeBody(spec, height, counter).code, st, st0, env);
  }

  lemma BodyPatterns(spec: Spec, height: nat, counter: nat, env: Env)
    requires Epilogue(DeserializeFn(spec, height, counter).patterns) <= env.structs
    ensures Epilogue(DeserializeBody(spec, height, counter).patterns) <= env.structs
  {
  }

  lemma InstantiateFresh(fs: seq<Field>, self: Value, st: State, env: Env) returns (o: Value)
    requires ValidFields(fs) && Fresh(fs, self) && st.vars == Entered(st.vars, self)
    ensures Exec(Instantiate(fs), st, env) == Some(st.(vars := Entered(st.vars, o)))
    ensures Shaped(fs, o)
  {
    FreshIsInstantiable(fs, self);
    o := InstantiateShapes(fs, self, st, env);
    SlotsExist(fs, o);
  }

  lemma ResetBetween(a: seq<Stmt>, b: seq<Stmt>, st: State, st1: State, env: Env)
    requires Exec(a, st, env) == Some(st1)
    ensures Exec(a + [ResetEnd] + b, st, env) == Exec(b, st1.(end := 0), env)
  {
    ExecAppend(a + [ResetEnd], b, st, env);
    ExecAppend(a, [ResetEnd], st, env);
    ExecSingle(ResetEnd, st1, env);
  }

  lemma SlotsExist(fs: seq<Field>, o: Value)
    requires ValidFields(fs) && o.Rec? && o.m.Keys == Names(fs)
    requires forall i :: 0 <= i < |fs| && IsEmbedded(fs[i]) ==> Shaped(fs[i].base.spec.fields, FieldOf(o, fs[i].name))
    ensures Shaped(fs, o)
  {
    forall i | 0 <= i < |fs| ensures Get(o, fs[i].name).Some? {
      var s := fs[i].name[0];
      assert s in fs[i].name && fs[i].name == [s];
      GetOne(o, s);
    }
  }

  /** Everything the code for the flattened fields needs. */
  lemma BodyStarts(fs: seq<Field>, o: Value)
    requires ValidFields(fs) && Shaped(fs, o)
    ensures EmbeddedValid(Flatten(fs)) && Settable(Flatten(fs), o) && AllApart(Flatten(fs))
  {
    FlattenSettable(fs, o);
    FlattenEmbeddedValid(fs);
  }

  lemma BodyReads(spec: Spec, v: Value, tail: seq<Byte>, o: Value, height: nat, counter: nat, st: State, env: Env) returns (st': State)
    requires ValidFields(spec.fields) && Typed(spec, v, true) && !DamagedFields(Deserialize, spec.fields, v)
    requires Shaped(spec.fields, o) && st.vars == Entered(st.vars, o) && st.end == 0
    requires Epilogue(DeserializeBody(spec, height, counter).patterns) <= env.structs
    requires env.input == Encode(spec, v) + tail
    ensures Exec(DeserializeBody(spec, height, counter).code, st, env) == Some(st')
    ensures st'.end == |Encode(spec, v)| && Lookup(st'.vars, Path(Self, [])) == Some(v)
  {
    var fs, self := spec.fields, Path(Self, []);
    assert TypedFields(fs, v, true);
    FlattenTyped(fs, v, true);
    FlattenEncodes(fs, v);
    FlattenDamage(Deserialize, fs, v);
    BodyStarts(fs, o);
    TypedIsComplete(fs, v);
    ShapedIsSettable(fs, o);
    FlattenSetAll(fs, o, v);
    SetAllCovers(o, fs, v);
    assert Lookup(st.vars, self) == Some(o);
    assert env.input[0..|Encode(spec, v)|] == Encode(spec, v);
    FieldsRead(Flatten(fs), self, height + 1, counter, st, env, o, v);
    st' := Exec(DeserializeBody(spec, height, counter).code, st, env).value;
  }

  lemma BodyRaises(spec: Spec, v: Value, tail: seq<Byte>, o: Value, height: nat, counter: nat, st: State, env: Env)
    requires ValidFields(spec.fields) && Typed(spec, v, true) && DamagedFields(Deserialize, spec.fields, v)
    requires Shaped(spec.fields, o) && st.vars == Entered(st.vars, o) && st.end == 0
    requires Epilogue(DeserializeBody(spec, height, counter).patterns) <= env.structs
    requires env.input == Encode(spec, v) + tail
    ensures Exec(DeserializeBody(spec, height, counter).code, st, env).None?
  {
    var fs, self := spec.fields, Path(Self, []);
    assert TypedFields(fs, v, true);
    FlattenTyped(fs, v, true);
    FlattenEncodes(fs, v);
    FlattenDamage(Deserialize, fs, v);
    BodyStarts(fs, o);
    assert Lookup(st.vars, self) == Some(o);
    assert env.input[0..|Encode(spec, v)|] == Encode(spec, v);
    FieldsRaise(Flatten(fs), self, height + 1, counter, st, env, o, v);
  }

  // ---------------------------------------------------------------- any input

  lemma {:induction false} FlattenNoBools(fs: seq<Field>)
    requires NoBools(fs)
    ensures NoBools(Flatten(fs))
    decreases fs
  {
    if fs != [] {
      NoBoolsSplit(fs, 1);
      FlattenNoBools(fs[1..]);
      var a, b := FlattenOne(fs[0]), Flatten(fs[1..]);
      assert NoBools(a) by {
        if IsEmbedded(fs[0]) {
          assert NoBool(fs[0].base);
          FlattenNoBools(fs[0].base.spec.fields);
        }
      }
      assert (a + b)[..|a|] == a && (a + b)[|a|..] == b;
      NoBoolsSplit(a + b, |a|);
    }
  }

  /**
   The generated deserialize code on any input: where it returns, the encoding of the message
   it built is no longer than the input it was given. When the code has not run past the input
   either, the message is well-typed and undamaged, and, if its type has no bools, it encodes
   to exactly the bytes consumed.
   */
  lemma DeserializeTakesWhatItReturns(spec: Spec, self: Value, height: nat, counter: nat, st: State, env: Env)
    requires ValidFields(spec.fields) && Fresh(spec.fields, self) && st.vars == Entered(st.vars, self)
    ensures
      var r := Exec(DeserializeFn(spec, height, counter).code, st, env);
      r.Some? ==> Lookup(r.value.vars, Path(Self, [])).Some? && Accepted(spec, Lookup(r.value.vars, Path(Self, [])).value, env.input, r.value.end)
  {
    hide Exec, Lookup, Instantiate, ValidFields, Fresh, Shaped, NoBools, GoodFields, Touched;
    var fs, p := spec.fields, Path(Self, []);
    var o, st1 := ReadingStarts(spec, self, height, counter, st, env);
    if Exec(DeserializeFn(spec, height, counter).code, st, env).Some? {
      BodyStarts(fs, o);
      SelfHolds(st1.vars, o);
      var st', w := FieldsTaken(Flatten(fs), p, height + 1, counter, st1, env, o);
      UpdatedLookup(st1.vars, st'.vars, p, w, height + 1, counter);
      FlattenEncodes(fs, w);
      if NoBools(fs) {
        FlattenNoBools(fs);
      }
      if st'.end <= |env.input| {
        GoodUnflattened(spec, o, w);
      }
    }
  }

  lemma GoodUnflattened(spec: Spec, o: Value, w: Value)
    requires ValidFields(spec.fields) && Shaped(spec.fields, o)
    requires Touched(Flatten(spec.fields), o, w) && GoodFields(Flatten(spec.fields), w)
    ensures Typed(spec, w, true) && !DamagedFields(Deserialize, spec.fields, w)
  {
    hide ValidFields, Shaped, Flatten;
    assert KeepsRecords(Flatten(spec.fields), o, w);
    UnflattenTyped(spec.fields, o, w);
    FlattenDamage(Deserialize, spec.fields, w);
  }

  /** The input begins with the encoding of a well-typed message that can be read. */
  ghost predicate BeginsWithMessage(spec: Spec, input: seq<Byte>)
  {
    exists w :: Typed(spec, w, true) && !DamagedFields(Deserialize, spec.fields, w) && Encode(spec, w) <= input
  }

  /**
   Without bools, the generated deserialize code accepts exactly the encodings: on any input it
   returns without running past the end if and only if the input begins with the encoding of a
   well-typed message that has no damaged array.
   */
  lemma DeserializeAcceptsEncodings(spec: Spec, self: Value, height: nat, counter: nat, st: State, env: Env)
    requires ValidFields(spec.fields) && Fresh(spec.fields, self) && st.vars == Entered(st.vars, self)
    requires Epilogue(DeserializeFn(spec, height, counter).patterns) <= env.structs && NoBools(spec.fields)
    ensures
      var r := Exec(DeserializeFn(spec, height, counter).code, st, env);
      (r.Some? && r.value.end <= |env.input|) <==> BeginsWithMessage(spec, env.input)
  {
    hide Exec, Lookup, Encode, DeserializeFn, ValidFields, Fresh, NoBools, DamagedFields, Typed;
    DeserializeTakesWhatItReturns(spec, self, height, counter, st, env);
    if BeginsWithMessage(spec, env.input) {
      var w :| Typed(spec, w, true) && !DamagedFields(Deserialize, spec.fields, w) && Encode(spec, w) <= env.input;
      var tail := env.input[|Encode(spec, w)|..];
      assert env.input == Encode(spec, w) + tail;
      DeserializeRebuildsTheMessage(spec, w, tail, self, height, counter, st, env);
    }
  }

  lemma SelfHolds(vars: map<Var, Slot>, o: Value)
    requires vars == Entered(vars, o)
    ensures Lookup(vars, Path(Self, [])) == Some(o)
    ensures forall depth, counter :: Anchored(vars, Path(Self, []), depth, counter)
  {
    assert vars[Self] == Own(o);
  }

  predicate Accepted(spec: Spec, w: Value, input: seq<Byte>, end: nat)
  {
    && |Encode(spec, w)| <= |input| && |Encode(spec, w)| <= end
    && (end <= |input| ==> Typed(spec, w, true) && !DamagedFields(Deserialize, spec.fields, w))
    && (NoBools(spec.fields) && end <= |input| ==> Encode(spec, w) == input[..end])
  }

  // ---------------------------------------------------------------- there and back

  /** Running one piece of code on a sender and another one on what it wrote. */
  function Exchanged(serialize: seq<Stmt>, deserialize: seq<Stmt>, sender: State, receiver: State, structs: set<string>): Option<State>
  {
    match Exec(serialize, sender, Env(structs, []))
    case None => None
    case Some(sent) => Exec(deserialize, receiver, Env(structs, sent.buff))
  }

  /** Running the generated serialize code and then the generated deserialize code on its output. */
  function SendAndReceive(spec: Spec, height: nat, counter: nat, counter': nat, sender: State, receiver: State, structs: set<string>): Option<State>
  {
    Exchanged(SerializeFn(spec, height, counter).code, DeserializeFn(spec, height, counter').code, sender, receiver, structs)
  }

  /**
   Serializing a message and deserializing the buffer rebuilds it, if and only if it holds no
   fixed-length array whose declared length has two adjacent nines; and then every byte is consumed.
   */
  lemma RoundTrip(spec: Spec, v: Value, self: Value, height: nat, counter: nat, counter': nat, sender: State, receiver: State, structs: set<string>)
    requires ValidFields(spec.fields) && Typed(spec, v, true)
    requires Epilogue(SerializeFn(spec, height, counter).patterns + DeserializeFn(spec, height, counter').patterns) <= structs
    requires sender.vars == Entered(sender.vars, v) && sender.buff == []
    requires Fresh(spec.fields, self) && receiver.vars == Entered(receiver.vars, self)
    ensures
      var r := SendAndReceive(spec, height, counter, counter', sender, receiver, structs);
      (r.Some? && Lookup(r.value.vars, Path(Self, [])) == Some(v)) <==> !DamagedFields(Serialize, spec.fields, v)
    ensures !DamagedFields(Serialize, spec.fields, v) ==>
      SendAndReceive(spec, height, counter, counter', sender, receiver, structs).value.end == |Encode(spec, v)|
  {
    hide Exec, Lookup, Encode, SerializeFn, DeserializeFn, ValidFields, Fresh, DamagedFields;
    StrictIsTyped(Embedded(spec), v);
    SerializeWritesTheEncoding(spec, v, height, counter, sender, Env(structs, []));
    var r := Exec(SerializeFn(spec, height, counter).code, sender, Env(structs, []));
    if DamagedFields(Serialize, spec.fields, v) {
      DamagedMessagesLoseBytes(spec, v, height, counter, sender, Env(structs, []));
      if r.Some? {
        DeserializeTakesWhatItReturns(spec, self, height, counter', receiver, Env(structs, r.value.buff));
      }
    } else {
      assert r.value.buff == Encode(spec, v) + [];
      FieldsReadable(spec.fields, v);
      DeserializeRebuildsTheMessage(spec, v, [], self, height, counter', receiver, Env(structs, r.value.buff));
    }
  }

  /** What can be written can be read. */
  lemma {:induction false} FieldsReadable(fs: seq<Field>, v: Value)
    requires !DamagedFields(Serialize, fs, v)
    ensures !DamagedFields(Deserialize, fs, v)
    decreases fs, 2
  {
    if fs != [] {
      FieldsReadable(fs[1..], v);
      if Get(v, fs[0].name).Some? {
        FieldReadable(fs[0].base, fs[0].kind, Get(v, fs[0].name).value);
      }
    }
  }

  lemma {:induction false} FieldReadable(base: Base, kind: Kind, v: Value)
    requires !DamagedField(Serialize, base, kind, v)
    ensures !DamagedField(Deserialize, base, kind, v)
    decreases base, 2
  {
    if kind.Scalar? && base.Embedded? {
      FieldsReadable(base.spec.fields, v);
    } else if !kind.Scalar? && !base.Prim? && v.List? {
      ListReadable(base, v.vs);
    }
  }

  lemma {:induction false} ListReadable(base: Base, vs: seq<Value>)
    requires !DamagedList(Serialize, base, vs)
    ensures !DamagedList(Deserialize, base, vs)
    decreases base, 1, |vs|
  {
    if vs != [] {
      ListReadable(base, vs[1..]);
      if base.Embedded? {
        FieldsReadable(base.spec.fields, vs[0]);
      }
    }
  }

  lemma {:induction false} StrictIsTyped(base: Base, v: Value)
    requires TypedBase(base, v, true)
    ensures TypedBase(base, v, false)
    decreases base
  {
    if base.Embedded? {
      var fs := base.spec.fields;
      forall i | 0 <= i < |fs| ensures TypedField(fs[i].base, fs[i].kind, Get(v, fs[i].name).value, false) {
        var x := Get(v, fs[i].name).value;
        assert TypedField(fs[i].base, fs[i].kind, x, true);
        if fs[i].kind.Scalar? {
          StrictIsTyped(fs[i].base, x);
        } else if !IsByteArray(fs[i].base, fs[i].kind) {
          forall j | 0 <= j < |x.vs| ensures TypedBase(fs[i].base, x.vs[j], false) {
            StrictIsTyped(fs[i].base, x.vs[j]);
          }
        }
      }
    }
  }

  /** A message with one field `uint8[99] data`: its serialize code does not write the encoding. */
  lemma NinetyNineBytesAreCutShort(st: State, env: Env, height: nat, counter: nat)
    requires
      var spec := Spec([Field(["data"], Prim(Uint8), FixedLength(99))]);
      Epilogue(SerializeFn(spec, height, counter).patterns) <= env.structs
    requires st.vars == Entered(st.vars, Rec(map["data" := Bytes(Repeat(0, 99))]))
    ensures
      var spec := Spec([Field(["data"], Prim(Uint8), FixedLength(99))]);
      var v := Rec(map["data" := Bytes(Repeat(0, 99))]);
      var r := Exec(SerializeFn(spec, height, counter).code, st, env);
      Typed(spec, v, true) && !(r.Some? && r.value.buff == st.buff + Encode(spec, v))
  {
    var f := Field(["data"], Prim(Uint8), FixedLength(99));
    var spec := Spec([f]);
    var v := Rec(map["data" := Bytes(Repeat(0, 99))]);
    GetOne(v, "data");
    assert spec.fields[0].name == ["data"] && "data" in spec.fields[0].name;
    assert forall s :: s in ["data"] <==> s == "data";
    assert Names(spec.fields) == {"data"};
    assert TypedField(f.base, f.kind, Bytes(Repeat(0, 99)), true);
    StrictIsTyped(Embedded(spec), v);
    assert AdjacentNines(Dec(99)) by {
      assert Dec(9) == "9";
      assert Dec(99)[0] == '9' && Dec(99)[1] == '9';
    }
    assert DamagedAt(Serialize, f, v);
    assert DamagedFields(Serialize, spec.fields, v);
    SerializeWritesTheEncoding(spec, v, height, counter, st, env);
  }
}
