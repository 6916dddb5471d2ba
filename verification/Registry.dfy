/**
 The registry of message types: type strings, what a registered type unfolds to, and
 flattening as it is done on type strings and dotted names.
 */
module Registry {
  import opened Wrappers
  import opened StructFormat
  import opened Graph
  import opened Messages
  import opened Flattening
  import opened PyCode
  import Genpy
  import Serialization
  import MessageCompiler

  /** The types and names of a MsgSpec. */
  datatype MsgSpec = MsgSpec(types: seq<string>, names: seq<string>)
  type Types = map<string, MsgSpec>

  // ---------------------------------------------------------------- type strings

  function Find(s: string, c: char): (k: nat)
    ensures k <= |s| && (k < |s| ==> s[k] == c) && forall i :: 0 <= i < k ==> s[i] != c
  {
    if s == "" || s[0] == c then 0 else 1 + Find(s[1..], c)
  }

  predicate AllDigits(s: string)
  {
    s != "" && forall i :: 0 <= i < |s| ==> IsDigit(s[i])
  }

  /** parse_type; None where it raises. */
  function ParseType(t: string): Option<(string, Kind)>
  {
    var k := Find(t, '[');
    if t == "" then None
    else if k == |t| then Some((t, Scalar))
    else if Find(t[k + 1..], '[') < |t[k + 1..]| then None
    else if t[k + 1..] == "]" then Some((t[..k], VarLength))
    else if |t| > k + 1 && AllDigits(t[k + 1..|t| - 1]) then Some((t[..k], FixedLength(DecVal(t[k + 1..|t| - 1], 0))))
    else None
  }

  lemma {:induction false} FindAt(b: string, c: char, rest: string)
    requires c !in b
    ensures Find(b, c) == |b| && Find(b + [c] + rest, c) == |b|
  {
    if b == "" {
      assert (b + [c] + rest)[0] == c;
    } else {
      assert (b + [c] + rest)[1..] == b[1..] + [c] + rest;
      FindAt(b[1..], c, rest);
    }
  }

  /** `T` is one value, `T[]` an array of any length, `T[n]` one of `n` elements, and nothing else in brackets is a type. */
  lemma ArrayTypes(b: string, d: string)
    requires '[' !in b
    ensures b != "" ==> ParseType(b) == Some((b, Scalar))
    ensures ParseType(b + "[]") == Some((b, VarLength))
    ensures ParseType(b + "[" + d + "]") ==
      if d == "" then Some((b, VarLength)) else if AllDigits(d) then Some((b, FixedLength(DecVal(d, 0)))) else None
  {
    FindAt(b, '[', "]");
    assert b + "[]" == b + ['['] + "]";
    Bracketed(b, d + "]");
    Bracketed(b, "]");
    assert b + "[" + d + "]" == b + ['['] + (d + "]");
    if d == "" {
      assert d + "]" == "]";
    } else {
      assert (d + "]")[..|d|] == d;
      FindEnd(d, "]");
    }
  }

  lemma Bracketed(b: string, rest: string)
    requires '[' !in b
    ensures var t := b + ['['] + rest;
      Find(t, '[') == |b| && t[..|b|] == b && t[|b| + 1..] == rest && (rest != "" ==> t[|b| + 1..|t| - 1] == rest[..|rest| - 1])
  {
    FindAt(b, '[', rest);
  }

  lemma FindEnd(d: string, rest: string)
    requires '[' !in rest
    ensures Find(d + rest, '[') < |d + rest| ==> !AllDigits(d)
  {
    forall i | |d| <= i < |d + rest| ensures (d + rest)[i] != '[' {
      assert (d + rest)[i] == rest[i - |d|];
    }
    var k := Find(d + rest, '[');
    assert k < |d + rest| ==> k < |d| && d[k] == '[';
  }

  function SimpleNamed(name: string): Option<Simple>
  {
    match name
    case "int8" => Some(Int8) case "uint8" => Some(Uint8) case "bool" => Some(Bool)
    case "int16" => Some(Int16) case "uint16" => Some(Uint16)
    case "int32" => Some(Int32) case "uint32" => Some(Uint32)
    case "int64" => Some(Int64) case "uint64" => Some(Uint64)
    case "float32" => Some(Float32) case "float64" => Some(Float64)
    case "char" => Some(Char) case "byte" => Some(ByteT)
    case _ => None
  }

  predicate Primitive(name: string)
  {
    SimpleNamed(name).Some? || name == "string"
  }

  /** The message type a field refers to, if any. */
  function Referred(t: string): seq<string>
  {
    match ParseType(t)
    case Some((b, _)) => if Primitive(b) then [] else [b]
    case None => []
  }

  function ReferredFrom(types: seq<string>): seq<string>
  {
    if types == [] then [] else Referred(types[0]) + ReferredFrom(types[1..])
  }

  ghost function TypeGraph(reg: Types): Graph<string>
  {
    map n | n in reg.Keys + (set m, b | m in reg && b in ReferredFrom(reg[m].types) :: b) ::
      if n in reg then ReferredFrom(reg[n].types) else []
  }

  lemma {:induction false} ReferredMember(types: seq<string>, i: nat)
    requires i < |types|
    ensures forall b <- Referred(types[i]) :: b in ReferredFrom(types)
    decreases |types|
  {
    if i > 0 {
      ReferredMember(types[1..], i - 1);
    }
  }

  lemma TypeGraphIsClosed(reg: Types)
    ensures Closed(TypeGraph(reg)) && forall n <- reg :: n in TypeGraph(reg) && TypeGraph(reg)[n] == ReferredFrom(reg[n].types)
  {
  }

  // ---------------------------------------------------------------- what can be generated

  /** What `load_from_string` and the constructor of MsgSpec accept. */
  predicate Accepted(spec: MsgSpec)
  {
    && |spec.types| == |spec.names|
    && (forall i :: 0 <= i < |spec.types| ==> ParseType(spec.types[i]).Some?)
    && (forall i, j :: 0 <= i < j < |spec.names| ==> spec.names[i] != spec.names[j])
    && (forall i :: 0 <= i < |spec.names| ==> spec.names[i] != "" && '.' !in spec.names[i])
  }

  /** Registered names are legal resource names and never builtin ones. */
  predicate LegalNames(reg: Types)
  {
    forall n <- reg :: n != "" && '[' !in n && !Primitive(n)
  }

  /** Registered, without a cycle, and everything it refers to registered. */
  ghost predicate Resolvable(reg: Types, n: string)
  {
    && LegalNames(reg) && n in reg && Accepted(reg[n]) && n in TypeGraph(reg) && AcyclicFrom(TypeGraph(reg), n)
    && forall m <- Reach(TypeGraph(reg), n) :: m in reg && Accepted(reg[m])
  }

  lemma ResolvableField(reg: Types, n: string, i: nat)
    requires Resolvable(reg, n) && i < |reg[n].types|
    ensures ParseType(reg[n].types[i]).Some?
    ensures var (b, _) := ParseType(reg[n].types[i]).value;
      Primitive(b) || (Resolvable(reg, b) && Reach(TypeGraph(reg), b) < Reach(TypeGraph(reg), n))
  {
    var g := TypeGraph(reg);
    TypeGraphIsClosed(reg);
    ReferredMember(reg[n].types, i);
    var (b, _) := ParseType(reg[n].types[i]).value;
    if !Primitive(b) {
      assert b in Referred(reg[n].types[i]);
      AcyclicEdge(g, n, b);
      ReachOfEdge(g, n, b);
    }
  }

  // ---------------------------------------------------------------- unfolding

  ghost function Unfold(reg: Types, n: string): Spec
    requires Resolvable(reg, n)
    decreases Reach(TypeGraph(reg), n), |reg[n].types| + 1
  {
    Spec(UnfoldFrom(reg, n, 0))
  }

  /** The fields from position `k` on. */
  ghost function UnfoldFrom(reg: Types, n: string, k: nat): (fs: seq<Field>)
    requires Resolvable(reg, n) && k <= |reg[n].types|
    ensures |fs| == |reg[n].types| - k
    decreases Reach(TypeGraph(reg), n), |reg[n].types| - k
  {
    if k == |reg[n].types| then [] else [FieldAt(reg, n, k)] + UnfoldFrom(reg, n, k + 1)
  }

  ghost function FieldAt(reg: Types, n: string, k: nat): Field
    requires Resolvable(reg, n) && k < |reg[n].types|
    decreases Reach(TypeGraph(reg), n), 0
  {
    ResolvableField(reg, n, k);
    var (b, kind) := ParseType(reg[n].types[k]).value;
    var base := if SimpleNamed(b).Some? then Prim(SimpleNamed(b).value) else if b == "string" then Messages.Text else Embedded(Unfold(reg, b));
    Field([reg[n].names[k]], base, kind)
  }

  /** The specification of an embedded field is that of a type lower down. */
  ghost predicate Below(reg: Types, n: string, f: Field, b: string)
    requires f.base.Embedded?
  {
    Resolvable(reg, b) && Reach(TypeGraph(reg), b) < Reach(TypeGraph(reg), n) && f.base.spec == Unfold(reg, b)
  }

  lemma FieldAtIs(reg: Types, n: string, k: nat)
    requires Resolvable(reg, n) && k < |reg[n].types|
    ensures FieldAt(reg, n, k).name == [reg[n].names[k]]
    ensures FieldAt(reg, n, k).base.Embedded? ==> exists b :: Below(reg, n, FieldAt(reg, n, k), b)
  {
    ResolvableField(reg, n, k);
    var (b, kind) := ParseType(reg[n].types[k]).value;
    hide Resolvable, Unfold;
    if !Primitive(b) {
      assert Below(reg, n, FieldAt(reg, n, k), b);
    }
  }

  lemma {:induction false} UnfoldedAt(reg: Types, n: string, k: nat, i: nat)
    requires Resolvable(reg, n) && k <= i < |reg[n].types|
    ensures UnfoldFrom(reg, n, k)[i - k] == FieldAt(reg, n, i)
    decreases i - k
  {
    hide FieldAt, Resolvable;
    if k < i {
      UnfoldedAt(reg, n, k + 1, i);
    }
  }

  /** An unfolded specification has one-part names, all different, at every level. */
  lemma {:induction false} UnfoldIsValid(reg: Types, n: string)
    requires Resolvable(reg, n)
    ensures ValidFields(Unfold(reg, n).fields)
    decreases Reach(TypeGraph(reg), n)
  {
    hide FieldAt, UnfoldFrom, ValidFields, AcyclicFrom, Reach, TypeGraph, ParseType;
    assert Unfold(reg, n).fields == UnfoldFrom(reg, n, 0);
    var fs := UnfoldFrom(reg, n, 0);
    forall i | 0 <= i < |fs| ensures Part(fs[i], reg[n].names[i]) {
      UnfoldedAt(reg, n, 0, i);
      FieldAtIs(reg, n, i);
      if fs[i].base.Embedded? {
        var b :| Below(reg, n, fs[i], b);
        UnfoldIsValid(reg, b);
      }
    }
    PartsAreValid(fs, reg[n].names);
  }

  /** A field with a one-part name and a valid specification behind it. */
  ghost predicate Part(f: Field, name: string)
  {
    f.name == [name] && (f.base.Embedded? ==> ValidFields(f.base.spec.fields))
  }

  lemma PartsAreValid(fs: seq<Field>, names: seq<string>)
    requires |fs| == |names| && (forall i :: 0 <= i < |fs| ==> Part(fs[i], names[i]))
    requires forall i, j :: 0 <= i < j < |names| ==> names[i] != names[j]
    ensures ValidFields(fs)
  {
    forall i, j | 0 <= i < j < |fs| ensures fs[i].name != fs[j].name {
      assert Part(fs[i], names[i]) && Part(fs[j], names[j]);
    }
    forall i | 0 <= i < |fs| && fs[i].base.Embedded? ensures ValidFields(fs[i].base.spec.fields) {
      assert Part(fs[i], names[i]);
    }
    forall i | 0 <= i < |fs| ensures |fs[i].name| == 1 {
      assert Part(fs[i], names[i]);
    }
  }

  // ---------------------------------------------------------------- flattening

  /** Types and names with a prefix before every name. */
  function Dot(prefix: string, fields: seq<(string, string)>): (r: seq<(string, string)>)
    ensures |r| == |fields|
  {
    seq(|fields|, i requires 0 <= i < |fields| => (fields[i].0, prefix + "." + fields[i].1))
  }

  lemma RegisteredIsScalar(reg: Types, n: string, k: nat)
    requires Resolvable(reg, n) && k < |reg[n].types| && reg[n].types[k] in reg
    ensures ParseType(reg[n].types[k]) == Some((reg[n].types[k], Scalar))
    ensures Resolvable(reg, reg[n].types[k]) && Reach(TypeGraph(reg), reg[n].types[k]) < Reach(TypeGraph(reg), n)
  {
    var t := reg[n].types[k];
    ResolvableField(reg, n, k);
    assert Find(t, '[') == |t| || '[' in t;
  }

  /** What `flatten` makes of the fields from position `k` on: types with dotted names. */
  ghost function FlatFrom(reg: Types, n: string, k: nat): seq<(string, string)>
    requires Resolvable(reg, n) && k <= |reg[n].types|
    decreases Reach(TypeGraph(reg), n), |reg[n].types| - k
  {
    if k == |reg[n].types| then [] else FlatAt(reg, n, k) + FlatFrom(reg, n, k + 1)
  }

  /** The parts of a path with dots between them. */
  function Dotted(path: seq<string>): string
  {
    if path == [] then "" else if |path| == 1 then path[0] else path[0] + "." + Dotted(path[1..])
  }

  /** A flattened field is what a type string and a dotted name say. */
  ghost predicate Describes(reg: Types, f: Field, t: string, name: string)
  {
    && Dotted(f.name) == name && f.name != []
    && ParseType(t).Some?
    && var (b, kind) := ParseType(t).value;
      && f.kind == kind
      && match f.base
         case Prim(s) => SimpleNamed(b) == Some(s)
         case Text => b == "string"
         case Embedded(spec) => Resolvable(reg, b) && spec == Unfold(reg, b)
  }

  ghost predicate AllDescribed(reg: Types, fs: seq<Field>, flat: seq<(string, string)>)
  {
    |fs| == |flat| && forall i :: 0 <= i < |fs| ==> Describes(reg, fs[i], flat[i].0, flat[i].1)
  }

  lemma PrefixedDescribed(reg: Types, p: string, fs: seq<Field>, flat: seq<(string, string)>)
    requires AllDescribed(reg, fs, flat)
    ensures AllDescribed(reg, Prefixed([p], fs), Dot(p, flat))
  {
    forall i | 0 <= i < |fs| ensures Describes(reg, Prefixed([p], fs)[i], flat[i].0, p + "." + flat[i].1) {
      assert Describes(reg, fs[i], flat[i].0, flat[i].1);
      assert ([p] + fs[i].name)[1..] == fs[i].name;
    }
  }

  /** The flattened forms of the field at position `k`. */
  ghost function FlatAt(reg: Types, n: string, k: nat): seq<(string, string)>
    requires Resolvable(reg, n) && k < |reg[n].types|
    decreases Reach(TypeGraph(reg), n), 0
  {
    var t, name := reg[n].types[k], reg[n].names[k];
    if t in reg then
      RegisteredIsScalar(reg, n, k);
      Dot(name, FlatFrom(reg, t, 0))
    else [(t, name)]
  }

  lemma {:induction false} FieldAgrees(reg: Types, n: string, k: nat)
    requires Resolvable(reg, n) && k < |reg[n].types|
    ensures AllDescribed(reg, FlattenOne(FieldAt(reg, n, k)), FlatAt(reg, n, k))
    decreases Reach(TypeGraph(reg), n), 0
  {
    var t, name := reg[n].types[k], reg[n].names[k];
    ResolvableField(reg, n, k);
    if t in reg {
      RegisteredIsScalar(reg, n, k);
      FlattenAgrees(reg, t, 0);
      hide Resolvable;
      PrefixedDescribed(reg, name, Flatten(UnfoldFrom(reg, t, 0)), FlatFrom(reg, t, 0));
    } else {
      NotRegistered(reg, n, k);
    }
  }

  lemma NotRegistered(reg: Types, n: string, k: nat)
    requires Resolvable(reg, n) && k < |reg[n].types| && reg[n].types[k] !in reg
    ensures var f := FieldAt(reg, n, k); !IsEmbedded(f) && Describes(reg, f, reg[n].types[k], reg[n].names[k])
  {
    ResolvableField(reg, n, k);
    var t := reg[n].types[k];
    assert Find(t, '[') == |t| ==> ParseType(t) == Some((t, Scalar));
  }

  lemma DescribedConcat(reg: Types, a: seq<Field>, b: seq<Field>, flatA: seq<(string, string)>, flatB: seq<(string, string)>)
    requires AllDescribed(reg, a, flatA) && AllDescribed(reg, b, flatB)
    ensures AllDescribed(reg, a + b, flatA + flatB)
  {
    hide Describes;
  }

  /** Flattening type strings with dotted names is flattening the unfolded specification. */
  lemma {:induction false} FlattenAgrees(reg: Types, n: string, k: nat)
    requires Resolvable(reg, n) && k <= |reg[n].types|
    ensures AllDescribed(reg, Flatten(UnfoldFrom(reg, n, k)), FlatFrom(reg, n, k))
    decreases Reach(TypeGraph(reg), n), |reg[n].types| - k + 1
  {
    hide AllDescribed, FieldAt, FlatAt, FlattenOne, AcyclicFrom, Reach, TypeGraph, ParseType;
    if k == |reg[n].types| {
      NothingDescribed(reg);
    } else {
      var fs := UnfoldFrom(reg, n, k);
      FieldAgrees(reg, n, k);
      FlattenAgrees(reg, n, k + 1);
      assert fs[0] == FieldAt(reg, n, k) && fs[1..] == UnfoldFrom(reg, n, k + 1);
      DescribedConcat(reg, FlattenOne(fs[0]), Flatten(fs[1..]), FlatAt(reg, n, k), FlatFrom(reg, n, k + 1));
    }
  }

  lemma NothingDescribed(reg: Types)
    ensures AllDescribed(reg, [], [])
  {
  }

  // ---------------------------------------------------------------- flattened names

  predicate Dotless(path: seq<string>)
  {
    path != [] && forall s <- path :: '.' !in s
  }

  /** Paths of names without dots are told apart by their dotted form. */
  lemma {:induction false} DottedTellsApart(a: seq<string>, b: seq<string>)
    requires Dotless(a) && Dotless(b) && Dotted(a) == Dotted(b)
    ensures a == b
    decreases |a|
  {
    FirstDot(a);
    FirstDot(b);
    assert a[0] == Dotted(a)[..|a[0]|] && b[0] == Dotted(b)[..|b[0]|];
    if |a| > 1 {
      assert a == [a[0]] + a[1..] && b == [b[0]] + b[1..];
      assert Dotted(a)[|a[0]| + 1..] == Dotted(a[1..]) && Dotted(b)[|b[0]| + 1..] == Dotted(b[1..]);
      DottedTellsApart(a[1..], b[1..]);
    }
  }

  lemma FirstDot(a: seq<string>)
    requires Dotless(a)
    ensures a[0] <= Dotted(a) && Find(Dotted(a), '.') == |a[0]| && (|a| == 1 <==> |Dotted(a)| == |a[0]|)
  {
    assert a[0] in a;
    FindAfter(a[0], if |a| == 1 then "" else "." + Dotted(a[1..]), '.');
    assert |a| == 1 ==> a[0] + "" == a[0];
    assert |a| > 1 ==> a[0] + "." + Dotted(a[1..]) == a[0] + ("." + Dotted(a[1..]));
  }

  lemma {:induction false} FindAfter(s: string, rest: string, c: char)
    requires c !in s && (rest == "" || rest[0] == c)
    ensures Find(s + rest, c) == |s|
  {
    if s == "" {
      assert s + rest == rest;
    } else {
      assert s[0] in s && forall x <- s[1..] :: x in s;
      FindAfter(s[1..], rest, c);
      assert (s + rest)[1..] == s[1..] + rest;
    }
  }

  predicate AllDotless(fs: seq<Field>)
  {
    forall f <- fs :: Dotless(f.name)
  }

  lemma DotlessBoth(a: seq<Field>, b: seq<Field>)
    requires AllDotless(a) && AllDotless(b)
    ensures AllDotless(a + b)
  {
  }

  /** A field whose own name has no dot and below which no flattened name has one. */
  ghost predicate DotlessPart(f: Field)
  {
    Dotless(f.name) && |f.name| == 1 && (f.base.Embedded? ==> AllDotless(Flatten(f.base.spec.fields)))
  }

  lemma {:induction false} FlattenedAreDotless(reg: Types, n: string)
    requires Resolvable(reg, n)
    ensures AllDotless(Flatten(Unfold(reg, n).fields))
    decreases Reach(TypeGraph(reg), n)
  {
    hide FieldAt, UnfoldFrom, AllDotless, Flatten, AcyclicFrom, Reach, TypeGraph, ParseType;
    assert Unfold(reg, n).fields == UnfoldFrom(reg, n, 0);
    var fs := UnfoldFrom(reg, n, 0);
    forall i | 0 <= i < |fs| ensures DotlessPart(fs[i]) {
      UnfoldedAt(reg, n, 0, i);
      FieldAtIs(reg, n, i);
      if fs[i].base.Embedded? {
        var b :| Below(reg, n, fs[i], b);
        FlattenedAreDotless(reg, b);
      }
    }
    PartsAreDotless(fs);
  }

  lemma {:induction false} PartsAreDotless(fs: seq<Field>)
    requires forall i :: 0 <= i < |fs| ==> DotlessPart(fs[i])
    ensures AllDotless(Flatten(fs))
    decreases |fs|
  {
    if fs != [] {
      hide Dotless, AllDotless;
      PartsAreDotless(fs[1..]);
      PartIsDotless(fs[0]);
      DotlessBoth(FlattenOne(fs[0]), Flatten(fs[1..]));
    }
  }

  lemma PartIsDotless(f: Field)
    requires DotlessPart(f)
    ensures AllDotless(FlattenOne(f))
  {
    if IsEmbedded(f) {
      assert f.name == [f.name[0]] && f.name[0] in f.name;
      PrefixedDotless(f.name[0], Flatten(f.base.spec.fields));
    }
  }

  lemma PrefixedDotless(p: string, fs: seq<Field>)
    requires '.' !in p && AllDotless(fs)
    ensures AllDotless(Prefixed([p], fs))
  {
    forall i | 0 <= i < |fs| ensures Dotless([p] + fs[i].name) {
      assert fs[i] in fs;
    }
  }

  /** The dotted names of a flattened specification are all different, so that MsgSpec never refuses it. */
  lemma FlattenedNamesDiffer(reg: Types, n: string)
    requires Resolvable(reg, n)
    ensures var flat := FlatFrom(reg, n, 0); forall i, j :: 0 <= i < j < |flat| ==> flat[i].1 != flat[j].1
  {
    var fs, flat := Flatten(UnfoldFrom(reg, n, 0)), FlatFrom(reg, n, 0);
    UnfoldIsValid(reg, n);
    FlattenApart(Unfold(reg, n).fields);
    FlattenAgrees(reg, n, 0);
    FlattenedAreDotless(reg, n);
    hide FlatFrom, UnfoldFrom, Flatten;
    forall i, j | 0 <= i < j < |flat| ensures flat[i].1 != flat[j].1 {
      assert Describes(reg, fs[i], flat[i].0, flat[i].1) && Describes(reg, fs[j], flat[j].0, flat[j].1);
      assert fs[i] in fs && fs[j] in fs;
      if flat[i].1 == flat[j].1 {
        DottedTellsApart(fs[i].name, fs[j].name);
      }
    }
  }

  /** `flatten` on the registry; None when MsgSpec refuses repeated names. */
  method FlattenRegistered(reg: Types, n: string) returns (r: Option<MsgSpec>)
    requires Resolvable(reg, n)
    ensures r.Some? && |r.value.types| == |r.value.names|
    ensures forall i :: 0 <= i < |r.value.types| ==> i < |FlatFrom(reg, n, 0)| && FlatFrom(reg, n, 0)[i] == (r.value.types[i], r.value.names[i])
    ensures |r.value.types| == |FlatFrom(reg, n, 0)|
    decreases Reach(TypeGraph(reg), n)
  {
    hide AcyclicFrom, Reach, TypeGraph, ParseType, FlatAt;
    var newTypes: seq<string>, newNames: seq<string> := [], [];
    ghost var flat: seq<(string, string)> := [];
    for i := 0 to |reg[n].types|
      invariant |newTypes| == |newNames| == |flat| && flat + FlatFrom(reg, n, i) == FlatFrom(reg, n, 0)
      invariant forall j :: 0 <= j < |flat| ==> flat[j] == (newTypes[j], newNames[j])
    {
      var t, name := reg[n].types[i], reg[n].names[i];
      ghost var before := flat;
      FlatAtIs(reg, n, i);
      if t in reg {
        RegisteredIsScalar(reg, n, i);
        var sub := FlattenRegistered(reg, t);
        if sub.None? {
          return None;
        }
        newTypes := newTypes + sub.value.types;
        for k := 0 to |sub.value.names|
          invariant |newNames| == |before| + k
          invariant forall j :: 0 <= j < |before| ==> before[j] == (newTypes[j], newNames[j])
          invariant forall j :: 0 <= j < k ==> newNames[|before| + j] == name + "." + sub.value.names[j]
        {
          newNames := newNames + [name + "." + sub.value.names[k]];
        }
      } else {
        newTypes := newTypes + [t];
        newNames := newNames + [name];
      }
      flat := before + FlatAt(reg, n, i);
      assert before + (FlatAt(reg, n, i) + FlatFrom(reg, n, i + 1)) == flat + FlatFrom(reg, n, i + 1);
    }
    assert flat + [] == flat;
    FlattenedNamesDiffer(reg, n);
    var repeated := Repeated(newNames);
    r := if repeated then None else Some(MsgSpec(newTypes, newNames));
  }

  lemma FlatAtIs(reg: Types, n: string, k: nat)
    requires Resolvable(reg, n) && k < |reg[n].types|
    ensures FlatFrom(reg, n, k) == FlatAt(reg, n, k) + FlatFrom(reg, n, k + 1)
    ensures reg[n].types[k] !in reg ==> FlatAt(reg, n, k) == [(reg[n].types[k], reg[n].names[k])]
    ensures reg[n].types[k] in reg ==>
      Resolvable(reg, reg[n].types[k]) && FlatAt(reg, n, k) == Dot(reg[n].names[k], FlatFrom(reg, reg[n].types[k], 0))
  {
    if reg[n].types[k] in reg {
      RegisteredIsScalar(reg, n, k);
    }
  }

  /** `len(set(names)) != len(names)`. */
  method Repeated(names: seq<string>) returns (r: bool)
    ensures r <==> exists i, j :: 0 <= i < j < |names| && names[i] == names[j]
  {
    for j := 0 to |names|
      invariant forall i, k :: 0 <= i < k < j ==> names[i] != names[k]
    {
      for i := 0 to j
        invariant forall k :: 0 <= k < i ==> names[k] != names[j]
      {
        if names[i] == names[j] {
          return true;
        }
      }
    }
    r := false;
  }

  // ---------------------------------------------------------------- registered types

  /**
   For every type of an acyclic registry and every well-typed message of that type: serializing
   writes exactly the naive encoding, and deserializing the buffer rebuilds the message and
   consumes every byte, if and only if no array of the message is damaged.
   */
  lemma RegisteredTypesRoundTrip(reg: Types, n: string, v: Value, self: Value, height: nat, counter: nat, counter': nat,
                                 sender: State, receiver: State, structs: set<string>)
    requires Resolvable(reg, n) && Typed(Unfold(reg, n), v, true)
    requires var spec := Unfold(reg, n);
      Genpy.Epilogue(Genpy.SerializeFn(spec, height, counter).patterns + Genpy.DeserializeFn(spec, height, counter').patterns) <= structs
    requires sender.vars == MessageCompiler.Entered(sender.vars, v) && sender.buff == []
    requires MessageCompiler.Fresh(Unfold(reg, n).fields, self) && receiver.vars == MessageCompiler.Entered(receiver.vars, self)
    ensures
      var r := Exec(Genpy.SerializeFn(Unfold(reg, n), height, counter).code, sender, Env(structs, []));
      (r.Some? && r.value.buff == Encode(Unfold(reg, n), v)) <==> Undamaged(reg, n, v)
    ensures
      var r := MessageCompiler.SendAndReceive(Unfold(reg, n), height, counter, counter', sender, receiver, structs);
      (r.Some? && Lookup(r.value.vars, Path(Self, [])) == Some(v)) <==> Undamaged(reg, n, v)
    ensures Undamaged(reg, n, v) ==>
      MessageCompiler.SendAndReceive(Unfold(reg, n), height, counter, counter', sender, receiver, structs).value.end == |Encode(Unfold(reg, n), v)|
  {
    hide Exec, Unfold, ValidFields, Encode, Lookup, Genpy.SerializeFn, Genpy.DeserializeFn,
      Serialization.DamagedFields, MessageCompiler.Fresh, MessageCompiler.SendAndReceive, Resolvable;
    var spec := Unfold(reg, n);
    UnfoldIsValid(reg, n);
    MessageCompiler.RoundTrip(spec, v, self, height, counter, counter', sender, receiver, structs);
    MessageCompiler.StrictIsTyped(Embedded(spec), v);
    MessageCompiler.SerializeWritesTheEncoding(spec, v, height, counter, sender, Env(structs, []));
    assert sender.buff + Encode(spec, v) == Encode(spec, v);
  }

  /** No fixed-length array of numbers or bytes in the message has two adjacent nines in its declared length. */
  ghost predicate Undamaged(reg: Types, n: string, v: Value)
    requires Resolvable(reg, n)
  {
    !Serialization.DamagedFields(Genpy.Serialize, Unfold(reg, n).fields, v)
  }
}
