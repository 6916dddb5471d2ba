/**
 Message specifications, message values, and the wire format: the naive recursive
 field-by-field little-endian encoding of an unflattened specification.

 A specification is the tree a registry of message types unfolds to: an embedded field
 carries the specification of its type. `time`, `duration` and `Header` are embedded
 specifications like any other.
 */
module Messages {
  import opened Wrappers
  import opened StructFormat

  datatype Simple =
    | Int8 | Uint8 | Bool | Int16 | Uint16 | Int32 | Uint32 | Int64 | Uint64
    | Float32 | Float64 | Char | ByteT

  /** SIMPLE_TYPES_DICT */
  function Code(t: Simple): (c: char)
    ensures IsCode(c)
  {
    match t
    case Int8 => 'b' case Uint8 => 'B' case Bool => 'B'
    case Int16 => 'h' case Uint16 => 'H'
    case Int32 => 'i' case Uint32 => 'I'
    case Int64 => 'q' case Uint64 => 'Q'
    case Float32 => 'f' case Float64 => 'd'
    case Char => 'B' case ByteT => 'b'
  }

  datatype Base = Prim(t: Simple) | Text | Embedded(spec: Spec)
  datatype Kind = Scalar | VarLength | FixedLength(n: nat)

  /** A field; its name is an attribute path, which `Flatten` makes longer than one. */
  datatype Field = Field(name: seq<string>, base: Base, kind: Kind)
  datatype Spec = Spec(fields: seq<Field>)

  predicate IsSimple(f: Field) { f.base.Prim? && f.kind.Scalar? }

  predicate IsEmbedded(f: Field) { f.base.Embedded? && f.kind.Scalar? }

  /** The arrays that are serialized like strings. */
  predicate IsByteArray(base: Base, kind: Kind)
  {
    !kind.Scalar? && (base == Prim(Uint8) || base == Prim(ByteT))
  }

  /** A Python value; floats are raw bit patterns, lists and tuples are one type. */
  datatype Value =
    | NoneValue
    | Num(n: int)
    | Bytes(b: seq<Byte>)
    | List(vs: seq<Value>)
    | Rec(m: map<string, Value>)

  // ---------------------------------------------------------------- attributes

  function Get(v: Value, attrs: seq<string>): Option<Value>
  {
    if attrs == [] then Some(v)
    else if v.Rec? && attrs[0] in v.m then Get(v.m[attrs[0]], attrs[1..])
    else None
  }

  /** Attribute assignment; the attribute must be one of the object's slots. */
  function Set(v: Value, attrs: seq<string>, x: Value): Option<Value>
  {
    if attrs == [] then Some(x)
    else if v.Rec? && attrs[0] in v.m then
      var inner := Set(v.m[attrs[0]], attrs[1..], x);
      if inner.None? then None else Some(Rec(v.m[attrs[0] := inner.value]))
    else None
  }

  // ---------------------------------------------------------------- well-typed messages

  function Names(fs: seq<Field>): set<string>
  {
    set i, s | 0 <= i < |fs| && s in fs[i].name :: s
  }

  /** One-attribute names, all different: what `MsgSpec` accepts for a parsed file. */
  predicate ValidFields(fs: seq<Field>)
    decreases fs
  {
    && (forall i :: 0 <= i < |fs| ==> |fs[i].name| == 1)
    && (forall i, j :: 0 <= i < j < |fs| ==> fs[i].name != fs[j].name)
    && (forall i :: 0 <= i < |fs| && fs[i].base.Embedded? ==> ValidFields(fs[i].base.spec.fields))
  }

  predicate BytesLike(v: Value, strict: bool)
  {
    v.Bytes? || (!strict && v.List? && forall i :: 0 <= i < |v.vs| ==> v.vs[i].Num? && 0 <= v.vs[i].n < 256)
  }

  function LengthOf(v: Value): nat
  {
    if v.Bytes? then |v.b| else if v.List? then |v.vs| else 0
  }

  predicate LengthFits(kind: Kind, v: Value)
  {
    match kind
    case FixedLength(n) => LengthOf(v) == n
    case _ => LengthOf(v) < UINT32_LIMIT
  }

  /** Well-typed values; `strict` leaves out byte arrays given as lists of numbers. */
  predicate TypedBase(base: Base, v: Value, strict: bool)
    decreases base, 0
  {
    match base
    case Prim(t) => v.Num? && InRange(Code(t), v.n) && (t.Bool? ==> 0 <= v.n <= 1)
    case Text => v.Bytes? && LengthFits(Scalar, v)
    case Embedded(spec) =>
      && v.Rec? && v.m.Keys == Names(spec.fields)
      && TypedFields(spec.fields, v, strict)
  }

  predicate TypedField(base: Base, kind: Kind, v: Value, strict: bool)
    decreases base, 1
  {
    if kind.Scalar? then TypedBase(base, v, strict)
    else if IsByteArray(base, kind) then BytesLike(v, strict) && LengthFits(kind, v)
    else v.List? && LengthFits(kind, v) && forall i :: 0 <= i < |v.vs| ==> TypedBase(base, v.vs[i], strict)
  }

  predicate TypedFields(fs: seq<Field>, v: Value, strict: bool)
    decreases fs
  {
    forall i :: 0 <= i < |fs| ==>
      Get(v, fs[i].name).Some? && TypedField(fs[i].base, fs[i].kind, Get(v, fs[i].name).value, strict)
  }

  predicate Typed(spec: Spec, v: Value, strict: bool)
  {
    TypedBase(Embedded(spec), v, strict)
  }

  // ---------------------------------------------------------------- the wire format

  function ByteOf(v: Value): Byte
  {
    if v.Num? && 0 <= v.n < 256 then v.n else 0
  }

  function BytesOf(v: Value): (bs: seq<Byte>)
  {
    if v.Bytes? then v.b
    else if v.List? then seq(|v.vs|, i requires 0 <= i < |v.vs| => ByteOf(v.vs[i]))
    else []
  }

  function EncodeBase(base: Base, v: Value): seq<Byte>
    decreases base, 0
  {
    match base
    case Prim(t) => if v.Num? && InRange(Code(t), v.n) then NumBytes(Code(t), v.n) else []
    case Text => LE(LengthOf(v), 4) + BytesOf(v)
    case Embedded(spec) => EncodeFields(spec.fields, v)
  }

  function EncodeList(base: Base, vs: seq<Value>): seq<Byte>
    decreases base, 1, |vs|
  {
    if vs == [] then [] else EncodeBase(base, vs[0]) + EncodeList(base, vs[1..])
  }

  function EncodeField(base: Base, kind: Kind, v: Value): seq<Byte>
    decreases base, 2
  {
    if kind.Scalar? then EncodeBase(base, v)
    else
      (if kind.VarLength? then LE(LengthOf(v), 4) else []) +
      (if IsByteArray(base, kind) then BytesOf(v) else if v.List? then EncodeList(base, v.vs) else [])
  }

  function EncodeAt(f: Field, v: Value): seq<Byte>
    decreases f
  {
    match Get(v, f.name)
    case Some(x) => EncodeField(f.base, f.kind, x)
    case None => []
  }

  function EncodeFields(fs: seq<Field>, v: Value): seq<Byte>
    decreases fs
  {
    if fs == [] then [] else EncodeAt(fs[0], v) + EncodeFields(fs[1..], v)
  }

  /** The bytes of a message on the wire. */
  function Encode(spec: Spec, v: Value): seq<Byte>
  {
    EncodeFields(spec.fields, v)
  }

  // ---------------------------------------------------------------- flatten

  function Prefixed(p: seq<string>, fs: seq<Field>): (r: seq<Field>)
    ensures |r| == |fs|
  {
    seq(|fs|, i requires 0 <= i < |fs| => fs[i].(name := p + fs[i].name))
  }

  function FlattenOne(f: Field): seq<Field>
    decreases f
  {
    if IsEmbedded(f) then Prefixed(f.name, Flatten(f.base.spec.fields)) else [f]
  }

  function Flatten(fs: seq<Field>): seq<Field>
    decreases fs
  {
    if fs == [] then [] else FlattenOne(fs[0]) + Flatten(fs[1..])
  }
}
