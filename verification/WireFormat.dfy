/**
 The wire format in plain numbers: how many bytes each builtin type takes, which byte is
 which, and what the generated code writes and reads for the simplest messages.
 */
module WireFormat {
  import opened Wrappers
  import opened StructFormat
  import opened Messages
  import opened PyCode
  import opened Genpy
  import opened Serialization
  import opened Deserialization
  import opened MessageCompiler
  import Registry

  // ---------------------------------------------------------------- builtin types

  function Octets(t: Simple): nat
  {
    match t
    case Int8 => 1 case Uint8 => 1 case Bool => 1 case Char => 1 case ByteT => 1
    case Int16 => 2 case Uint16 => 2
    case Int32 => 4 case Uint32 => 4 case Float32 => 4
    case Int64 => 8 case Uint64 => 8 case Float64 => 8
  }

  /** The smallest number of a type; a float is its bit pattern. */
  function Least(t: Simple): int
  {
    match t
    case Int8 => -128 case ByteT => -128
    case Int16 => -32768
    case Int32 => -0x8000_0000
    case Int64 => -0x8000_0000_0000_0000
    case _ => 0
  }

  function Most(t: Simple): int
  {
    match t
    case Bool => 1
    case Int8 => 127 case ByteT => 127 case Uint8 => 255 case Char => 255
    case Int16 => 32767 case Uint16 => 65535
    case Int32 => 0x7fff_ffff case Uint32 => 0xffff_ffff case Float32 => 0xffff_ffff
    case Int64 => 0x7fff_ffff_ffff_ffff case Uint64 => 0xffff_ffff_ffff_ffff case Float64 => 0xffff_ffff_ffff_ffff
  }

  /** A number is a value of a builtin type exactly within its limits. */
  lemma BuiltinLimits(t: Simple, v: Value, strict: bool)
    ensures TypedBase(Prim(t), v, strict) <==> v.Num? && Least(t) <= v.n <= Most(t)
  {
  }

  /** Two's complement, lowest byte first. */
  lemma BuiltinBytes(t: Simple, n: int)
    requires Least(t) <= n <= Most(t)
    ensures |EncodeBase(Prim(t), Num(n))| == Octets(t)
    ensures forall i :: 0 <= i < Octets(t) ==> EncodeBase(Prim(t), Num(n))[i] == n / Pow(256, i) % 256
  {
    BuiltinLimits(t, Num(n), true);
    var c := Code(t);
    forall i | 0 <= i < Octets(t) ensures NumBytes(c, n)[i] == n / Pow(256, i) % 256 {
      LittleEndianByte(if n < 0 then n + Modulus(c) else n, Width(c), i);
      WrapsAround(n, Width(c), i);
    }
  }

  /** What a builtin type name stands for: its width, and its values between two limits. */
  ghost predicate Builtin(name: string, octets: nat, low: int, high: int)
  {
    && Registry.SimpleNamed(name).Some?
    && var t := Registry.SimpleNamed(name).value;
      && (forall n :: TypedBase(Prim(t), Num(n), true) <==> low <= n <= high)
      && (forall n :: low <= n <= high ==> |EncodeBase(Prim(t), Num(n))| == octets)
  }

  lemma BuiltinIs(name: string, t: Simple)
    requires Registry.SimpleNamed(name) == Some(t)
    ensures Builtin(name, Octets(t), Least(t), Most(t))
  {
    hide TypedBase, EncodeBase;
    forall n ensures TypedBase(Prim(t), Num(n), true) <==> Least(t) <= n <= Most(t) {
      BuiltinLimits(t, Num(n), true);
    }
    forall n | Least(t) <= n <= Most(t) ensures |EncodeBase(Prim(t), Num(n))| == Octets(t) {
      BuiltinBytes(t, n);
    }
  }

  /** The builtin types by name; a float is its bit pattern. */
  lemma BuiltinTypes()
    ensures Builtin("int8", 1, -128, 127) && Builtin("byte", 1, -128, 127)
    ensures Builtin("uint8", 1, 0, 255) && Builtin("char", 1, 0, 255) && Builtin("bool", 1, 0, 1)
    ensures Builtin("int16", 2, -32768, 32767) && Builtin("uint16", 2, 0, 65535)
    ensures Builtin("int32", 4, -0x8000_0000, 0x7fff_ffff) && Builtin("uint32", 4, 0, 0xffff_ffff)
    ensures Builtin("int64", 8, -0x8000_0000_0000_0000, 0x7fff_ffff_ffff_ffff)
    ensures Builtin("uint64", 8, 0, 0xffff_ffff_ffff_ffff)
    ensures Builtin("float32", 4, 0, 0xffff_ffff) && Builtin("float64", 8, 0, 0xffff_ffff_ffff_ffff)
  {
    hide Builtin;
    BuiltinIs("int8", Int8);
    BuiltinIs("byte", ByteT);
    BuiltinIs("uint8", Uint8);
    BuiltinIs("char", Char);
    BuiltinIs("bool", Bool);
    BuiltinIs("int16", Int16);
    BuiltinIs("uint16", Uint16);
    BuiltinIs("int32", Int32);
    BuiltinIs("uint32", Uint32);
    BuiltinIs("int64", Int64);
    BuiltinIs("uint64", Uint64);
    BuiltinIs("float32", Float32);
    BuiltinIs("float64", Float64);
  }

  /** The field a registered type string unfolds to. */
  lemma RegisteredField(reg: Registry.Types, n: string, k: nat, b: string, d: string)
    requires Registry.Resolvable(reg, n) && k < |reg[n].types| && Registry.SimpleNamed(b).Some?
    ensures
      var f, t := Registry.Unfold(reg, n).fields[k], reg[n].types[k];
      && (t == b ==> f == Field([reg[n].names[k]], Prim(Registry.SimpleNamed(b).value), Scalar))
      && (t == b + "[]" ==> f == Field([reg[n].names[k]], Prim(Registry.SimpleNamed(b).value), VarLength))
      && (t == b + "[" + d + "]" && Registry.AllDigits(d) ==>
            f == Field([reg[n].names[k]], Prim(Registry.SimpleNamed(b).value), FixedLength(DecVal(d, 0))))
  {
    hide Registry.Resolvable, Registry.ParseType, Registry.SimpleNamed, Registry.Unfold;
    BuiltinHasNoBracket(b);
    Registry.ArrayTypes(b, d);
    BuiltinField(reg, n, k);
  }

  lemma BuiltinHasNoBracket(b: string)
    requires Registry.SimpleNamed(b).Some?
    ensures '[' !in b && b != ""
  {
  }

  lemma BuiltinField(reg: Registry.Types, n: string, k: nat)
    requires Registry.Resolvable(reg, n) && k < |reg[n].types|
    ensures Registry.ParseType(reg[n].types[k]).Some?
    ensures
      var (b, kind) := Registry.ParseType(reg[n].types[k]).value;
      Registry.SimpleNamed(b).Some? ==>
        Registry.Unfold(reg, n).fields[k] == Field([reg[n].names[k]], Prim(Registry.SimpleNamed(b).value), kind)
  {
    Registry.ResolvableField(reg, n, k);
    Registry.UnfoldedAt(reg, n, 0, k);
    hide Registry.Resolvable, Registry.ParseType, Registry.SimpleNamed;
  }

  lemma {:induction false} PowSplit(b: nat, i: nat, j: nat)
    ensures Pow(b, i + j) == Pow(b, i) * Pow(b, j)
  {
    if i > 0 {
      PowSplit(b, i - 1, j);
      Reassociate(b, Pow(b, i - 1), Pow(b, j));
    }
  }

  lemma Reassociate(a: int, b: int, c: int)
    ensures a * (b * c) == (a * b) * c
  {
  }

  lemma WrapsAround(n: int, w: nat, i: nat)
    requires i < w
    ensures (n + Pow(256, w)) / Pow(256, i) % 256 == n / Pow(256, i) % 256
  {
    hide Pow;
    var p, k := Pow(256, i), Pow(256, w - i - 1);
    PowSplit(256, i, w - i);
    PowNext(256, w - i - 1);
    MultiplesFallOut(n, p, 256 * k);
    SameLowByte(n / p, k);
  }

  lemma PowNext(b: nat, e: nat)
    ensures Pow(b, e + 1) == b * Pow(b, e)
  {
  }

  lemma SameLowByte(x: int, k: int)
    ensures (x + 256 * k) % 256 == x % 256
  {
  }

  lemma MultiplesFallOut(n: int, p: nat, k: int)
    requires p > 0
    ensures (n + p * k) / p == n / p + k
  {
    var q, r := n / p, n % p;
    Distribute(p, q, k);
    QuotientIs(n + p * k, p, q + k, r);
  }

  lemma Distribute(p: int, q: int, k: int)
    ensures p * (q + k) == p * q + p * k
  {
  }

  // ---------------------------------------------------------------- the generated code on one-field messages

  /** What the generated serialize code adds to the buffer; None where it raises. */
  function Added(spec: Spec, height: nat, counter: nat, st: State, env: Env): Option<seq<Byte>>
  {
    match Exec(SerializeFn(spec, height, counter).code, st, env)
    case None => None
    case Some(r) => if st.buff <= r.buff then Some(r.buff[|st.buff|..]) else None
  }

  /** A run of the generated serialize code on a message. */
  ghost predicate Runs(spec: Spec, v: Value, height: nat, counter: nat, st: State, env: Env)
  {
    Epilogue(SerializeFn(spec, height, counter).patterns) <= env.structs && st.vars == Entered(st.vars, v)
  }

  function OneField(name: string, base: Base, kind: Kind): Spec
  {
    Spec([Field([name], base, kind)])
  }

  lemma OneFieldTyped(name: string, base: Base, kind: Kind, x: Value, strict: bool)
    requires TypedField(base, kind, x, strict)
    ensures Typed(OneField(name, base, kind), Rec(map[name := x]), strict)
    ensures Encode(OneField(name, base, kind), Rec(map[name := x])) == EncodeField(base, kind, x)
    ensures DamagedFields(Serialize, OneField(name, base, kind).fields, Rec(map[name := x])) <==> DamagedField(Serialize, base, kind, x)
    ensures DamagedFields(Deserialize, OneField(name, base, kind).fields, Rec(map[name := x])) <==> DamagedField(Deserialize, base, kind, x)
    ensures ValidFields(OneField(name, base, kind).fields) <==> base.Embedded? ==> ValidFields(base.spec.fields)
  {
    hide EncodeField, TypedField, DamagedField;
    var f, v := Field([name], base, kind), Rec(map[name := x]);
    var fs := [f];
    GetOne(v, name);
    assert fs[1..] == [];
    assert forall s :: s in f.name <==> s == name;
    assert Names(fs) == {name} by {
      assert fs[0].name == [name] && name in fs[0].name;
    }
    assert EncodeFields(fs, v) == EncodeAt(f, v) + [];
    assert v.m.Keys == {name} && Get(v, fs[0].name) == Some(x);
    assert TypedFields(fs, v, strict);
    assert OneField(name, base, kind).fields == fs;
  }

  lemma OneFieldWritten(name: string, base: Base, kind: Kind, x: Value, height: nat, counter: nat, st: State, env: Env)
    requires TypedField(base, kind, x, false) && !DamagedField(Serialize, base, kind, x)
    requires Runs(OneField(name, base, kind), Rec(map[name := x]), height, counter, st, env)
    ensures Added(OneField(name, base, kind), height, counter, st, env) == Some(EncodeField(base, kind, x))
  {
    hide TypedField, DamagedField, DamagedFields, Exec, EncodeField, Encode, Typed, Epilogue;
    var spec, v := OneField(name, base, kind), Rec(map[name := x]);
    OneFieldTyped(name, base, kind, x, false);
    SerializeWritesTheEncoding(spec, v, height, counter, st, env);
    var r := Exec(SerializeFn(spec, height, counter).code, st, env).value;
    assert (st.buff + Encode(spec, v))[|st.buff|..] == Encode(spec, v);
  }

  /** A message with one builtin field: the bytes of its number and nothing else. */
  lemma NumberWritten(name: string, t: Simple, n: int, height: nat, counter: nat, st: State, env: Env)
    requires Least(t) <= n <= Most(t)
    requires Runs(OneField(name, Prim(t), Scalar), Rec(map[name := Num(n)]), height, counter, st, env)
    ensures
      var r := Added(OneField(name, Prim(t), Scalar), height, counter, st, env);
      r.Some? && |r.value| == Octets(t) && forall i :: 0 <= i < Octets(t) ==> r.value[i] == n / Pow(256, i) % 256
  {
    hide Runs, Added;
    BuiltinLimits(t, Num(n), false);
    BuiltinBytes(t, n);
    OneFieldWritten(name, Prim(t), Scalar, Num(n), height, counter, st, env);
  }

  lemma Uint32Written(name: string, n: nat, height: nat, counter: nat, st: State, env: Env)
    requires n < 0x1_0000_0000
    requires Runs(OneField(name, Prim(Uint32), Scalar), Rec(map[name := Num(n)]), height, counter, st, env)
    ensures Added(OneField(name, Prim(Uint32), Scalar), height, counter, st, env)
      == Some([n % 256, n / 256 % 256, n / 0x1_0000 % 256, n / 0x100_0000])
  {
    hide Runs, Added;
    FourBytes(n);
    BuiltinLimits(Uint32, Num(n), false);
    OneFieldWritten(name, Prim(Uint32), Scalar, Num(n), height, counter, st, env);
  }

  /** A string: four bytes with its length, then the text. */
  lemma StringWritten(name: string, text: seq<Byte>, height: nat, counter: nat, st: State, env: Env)
    requires |text| < 0x1_0000_0000
    requires Runs(OneField(name, Text, Scalar), Rec(map[name := Bytes(text)]), height, counter, st, env)
    ensures Added(OneField(name, Text, Scalar), height, counter, st, env)
      == Some([|text| % 256, |text| / 256 % 256, |text| / 0x1_0000 % 256, |text| / 0x100_0000] + text)
  {
    hide Runs, Added;
    FourBytes(|text|);
    OneFieldWritten(name, Text, Scalar, Bytes(text), height, counter, st, env);
  }

  /** The elements of an array one after the other. */
  lemma {:induction false} ElementsInOrder(t: Simple, vs: seq<Value>, i: nat)
    requires (forall j :: 0 <= j < |vs| ==> TypedBase(Prim(t), vs[j], false)) && i < |vs|
    ensures |EncodeList(Prim(t), vs)| == Octets(t) * |vs|
    ensures Octets(t) * i + Octets(t) <= Octets(t) * |vs|
    ensures EncodeList(Prim(t), vs)[Octets(t) * i..Octets(t) * i + Octets(t)] == EncodeBase(Prim(t), vs[i])
    decreases |vs|
  {
    hide Octets, TypedBase, EncodeBase, EncodeList;
    var w, first, rest := Octets(t), EncodeBase(Prim(t), vs[0]), EncodeList(Prim(t), vs[1..]);
    ListStep(t, vs);
    if |vs| > 1 {
      ElementsInOrder(t, vs[1..], if i == 0 then 0 else i - 1);
    }
    OneMore(w, |vs| - 1);
    if i > 0 {
      OneMore(w, i - 1);
      SliceBehind(first, rest, w * (i - 1), w * (i - 1) + w);
      assert vs[1..][i - 1] == vs[i];
    } else {
      assert (first + rest)[0..w] == first;
      assert w * 0 == 0;
    }
  }

  lemma ListStep(t: Simple, vs: seq<Value>)
    requires vs != [] && TypedBase(Prim(t), vs[0], false)
    ensures EncodeList(Prim(t), vs) == EncodeBase(Prim(t), vs[0]) + EncodeList(Prim(t), vs[1..])
    ensures |EncodeBase(Prim(t), vs[0])| == Octets(t)
    ensures |vs| == 1 ==> EncodeList(Prim(t), vs[1..]) == [] && Octets(t) * 0 == 0
  {
    BuiltinLimits(t, vs[0], false);
    BuiltinBytes(t, vs[0].n);
  }

  lemma SliceBehind(first: seq<Byte>, rest: seq<Byte>, lo: nat, hi: nat)
    requires lo <= hi <= |rest|
    ensures (first + rest)[|first| + lo..|first| + hi] == rest[lo..hi]
  {
  }

  lemma OneMore(w: nat, k: nat)
    ensures w * (k + 1) == w * k + w
  {
  }

  /** An array of numbers: four bytes with the number of elements, then the elements. */
  lemma ArrayWritten(name: string, t: Simple, vs: seq<Value>, height: nat, counter: nat, st: State, env: Env)
    requires t != Uint8 && t != ByteT && |vs| < 0x1_0000_0000
    requires forall j :: 0 <= j < |vs| ==> vs[j].Num? && Least(t) <= vs[j].n <= Most(t)
    requires Runs(OneField(name, Prim(t), VarLength), Rec(map[name := List(vs)]), height, counter, st, env)
    ensures Added(OneField(name, Prim(t), VarLength), height, counter, st, env)
      == Some([|vs| % 256, |vs| / 256 % 256, |vs| / 0x1_0000 % 256, |vs| / 0x100_0000] + EncodeList(Prim(t), vs))
  {
    hide Runs, Added, Least, Most;
    FourBytes(|vs|);
    forall j | 0 <= j < |vs| ensures TypedBase(Prim(t), vs[j], false) {
      BuiltinLimits(t, vs[j], false);
    }
    OneFieldWritten(name, Prim(t), VarLength, List(vs), height, counter, st, env);
  }

  /** Fields go in the order of the specification, with nothing between them. */
  lemma {:induction false} FieldsInOrder(fs: seq<Field>, gs: seq<Field>, v: Value)
    ensures EncodeFields(fs + gs, v) == EncodeFields(fs, v) + EncodeFields(gs, v)
    decreases |fs|
  {
    hide EncodeAt;
    if fs == [] {
      assert fs + gs == gs;
    } else {
      FieldsInOrder(fs[1..], gs, v);
      assert (fs + gs)[1..] == fs[1..] + gs && (fs + gs)[0] == fs[0];
    }
  }

  // ---------------------------------------------------------------- and back

  /** Unpacking four bytes gives the number whose lowest byte came first. */
  lemma Uint32Read(name: string, bs: seq<Byte>, tail: seq<Byte>, self: Value, height: nat, counter: nat, st: State, env: Env)
    requires |bs| == 4 && env.input == bs + tail
    requires Fresh(OneField(name, Prim(Uint32), Scalar).fields, self) && st.vars == Entered(st.vars, self)
    requires Epilogue(DeserializeFn(OneField(name, Prim(Uint32), Scalar), height, counter).patterns) <= env.structs
    ensures
      var r := Exec(DeserializeFn(OneField(name, Prim(Uint32), Scalar), height, counter).code, st, env);
      var n := bs[0] + 256 * (bs[1] as int) + 0x1_0000 * (bs[2] as int) + 0x100_0000 * (bs[3] as int);
      r.Some? && Lookup(r.value.vars, Path(Self, [])) == Some(Rec(map[name := Num(n)])) && r.value.end == 4
  {
    hide Exec, Lookup, Epilogue, Fresh, DamagedFields, ValidFields, Typed, Encode;
    var spec, n := OneField(name, Prim(Uint32), Scalar), UnLE(bs);
    FromFourBytes(bs);
    LittleEndianRestored(bs);
    BuiltinLimits(Uint32, Num(n), true);
    OneFieldTyped(name, Prim(Uint32), Scalar, Num(n), true);
    DeserializeRebuildsTheMessage(spec, Rec(map[name := Num(n)]), tail, self, height, counter, st, env);
  }

  lemma StringRead(name: string, bs: seq<Byte>, text: seq<Byte>, tail: seq<Byte>, self: Value, height: nat, counter: nat, st: State, env: Env)
    requires |bs| == 4 && env.input == bs + text + tail
    requires |text| == bs[0] + 256 * (bs[1] as int) + 0x1_0000 * (bs[2] as int) + 0x100_0000 * (bs[3] as int)
    requires Fresh(OneField(name, Text, Scalar).fields, self) && st.vars == Entered(st.vars, self)
    requires Epilogue(DeserializeFn(OneField(name, Text, Scalar), height, counter).patterns) <= env.structs
    ensures
      var r := Exec(DeserializeFn(OneField(name, Text, Scalar), height, counter).code, st, env);
      r.Some? && Lookup(r.value.vars, Path(Self, [])) == Some(Rec(map[name := Bytes(text)])) && r.value.end == 4 + |text|
  {
    hide Exec, Lookup, Epilogue, Fresh, DamagedFields, ValidFields, Typed, Encode;
    var spec := OneField(name, Text, Scalar);
    FromFourBytes(bs);
    LittleEndianRestored(bs);
    OneFieldTyped(name, Text, Scalar, Bytes(text), true);
    DeserializeRebuildsTheMessage(spec, Rec(map[name := Bytes(text)]), tail, self, height, counter, st, env);
  }
}
