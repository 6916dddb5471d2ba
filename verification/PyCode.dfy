/**
 The fragment of Python that the generator emits, and an interpreter for it over a byte
 buffer. A run ends in None where Python raises an exception.

 Objects are trees owned by a local variable. A local bound to an object inside another one
 is an alias: the owner's name and the attribute path to the object.
 */
module PyCode {
  import opened Wrappers
  import opened StructFormat
  import opened Messages

  /** `self`, `_x`, `val<k>` and `_v<k>` */
  datatype Var = Self | X | Loop(k: nat) | Ctx(k: nat)

  /** A variable followed by attributes, as in `_v1.stamp.secs`. */
  datatype Path = Path(root: Var, attrs: seq<string>) {
    function Dot(more: seq<string>): Path { Path(root, attrs + more) }
  }

  datatype Amount = Const(n: nat) | LengthVar | CalcSizeOfPattern

  datatype Stmt =
    | Pass
    | Assign(x: Var, p: Path)                            // x = p
    | Len(p: Path)                                       // length = len(p)
    | WriteLength                                        // buff.write(_struct_I.pack(length))
    | WriteStruct(pattern: string, ps: seq<Path>)        // buff.write(_struct_<pattern>.pack(p0, p1, ...))
    | WriteStar(pattern: string, p: Path)                // buff.write(_struct_<pattern>.pack(*p))
    | WriteText(p: Path)                                 // buff.write(struct.pack('<I%ss'%length, length, p))
    | WriteTextList(p: Path)                             // buff.write(struct.pack('<I%sB'%length, length, *p))
    | SetPattern(code: char)                             // pattern = '<%s<code>'%length
    | WritePattern(p: Path)                              // buff.write(struct.pack(pattern, *p))
    | IfList(p: Path, thn: seq<Stmt>, els: seq<Stmt>)    // if type(p) in [list, tuple]: ... else: ...
    | ForIn(x: Var, p: Path, body: seq<Stmt>)            // for x in p: ...
    | ResetEnd                                           // end = 0
    | StartEnd                                           // start = end
    | Advance(delta: Amount)                                // end += delta
    | ReadLength                                         // (length,) = _struct_I.unpack(str[start:end])
    | ReadStruct(pattern: string, ps: seq<Path>)         // (p0, p1, ...,) = _struct_<pattern>.unpack(str[start:end])
    | ReadStar(pattern: string, p: Path)                 // p = _struct_<pattern>.unpack(str[start:end])
    | ReadPattern(p: Path)                               // p = struct.unpack(pattern, str[start:end])
    | Slice(p: Path)                                     // p = str[start:end]
    | ToBool(p: Path)                                    // p = bool(p)
    | MapBool(p: Path)                                   // p = map(bool, p)
    | SetEmpty(p: Path)                                  // p = []
    | ForRange(times: Amount, body: seq<Stmt>)           // for i in range(0, times): ...
    | New(p: Path, spec: Spec)                           // p = <constructor>()
    | IfNone(p: Path, thn: seq<Stmt>)                    // if p is None: ...
    | Append(p: Path, x: Var)                            // p.append(x)

  datatype Slot = Own(v: Value) | Alias(p: Path)

  datatype State = State(
    vars: map<Var, Slot>,
    length: nat,
    pattern: (char, nat),
    buff: seq<Byte>,
    start: nat,
    end: nat)

  /** What the code sees but does not change: the defined `_struct_<p>` names and the input string. */
  datatype Env = Env(structs: set<string>, input: seq<Byte>)

  // ---------------------------------------------------------------- variables

  /** The owner and attribute path a path denotes. */
  function Target(vars: map<Var, Slot>, p: Path): Path
  {
    if p.root in vars && vars[p.root].Alias? then vars[p.root].p.Dot(p.attrs) else p
  }

  function Lookup(vars: map<Var, Slot>, p: Path): Option<Value>
  {
    var t := Target(vars, p);
    if t.root in vars && vars[t.root].Own? then Get(vars[t.root].v, t.attrs) else None
  }

  /** Assignment to a bare variable rebinds it; to an attribute, updates the owner. */
  function Store(vars: map<Var, Slot>, p: Path, x: Value): Option<map<Var, Slot>>
  {
    if p.attrs == [] then Some(vars[p.root := Own(x)])
    else
      var t := Target(vars, p);
      if t.root in vars && vars[t.root].Own? then
        match Set(vars[t.root].v, t.attrs, x)
        case None => None
        case Some(v) => Some(vars[t.root := Own(v)])
      else None
  }

  function LookupAll(vars: map<Var, Slot>, ps: seq<Path>): Option<seq<Value>>
  {
    if ps == [] then Some([])
    else match (Lookup(vars, ps[0]), LookupAll(vars, ps[1..]))
      case (Some(v), Some(vs)) => Some([v] + vs)
      case _ => None
  }

  function StoreAll(vars: map<Var, Slot>, ps: seq<Path>, vs: seq<Value>): Option<map<Var, Slot>>
    decreases ps
  {
    if |ps| != |vs| then None
    else if ps == [] then Some(vars)
    else match Store(vars, ps[0], vs[0])
      case None => None
      case Some(vars') => StoreAll(vars', ps[1..], vs[1..])
  }

  // ---------------------------------------------------------------- struct.pack and struct.unpack

  /** An 's' item pads with zeros or cuts off to its width. */
  function Fit(b: seq<Byte>, n: nat): (r: seq<Byte>)
    ensures |r| == n
  {
    if |b| >= n then b[..n] else b + Repeat(0, n - |b|)
  }

  function PackItem(i: Item, v: Value): Option<seq<Byte>>
  {
    match i
    case Number(c) => if v.Num? && InRange(c, v.n) then Some(NumBytes(c, v.n)) else None
    case Blob(n) => if v.Bytes? then Some(Fit(v.b, n)) else None
  }

  function PackItems(items: seq<Item>, vs: seq<Value>): Option<seq<Byte>>
  {
    if |items| != |vs| then None
    else if items == [] then Some([])
    else match (PackItem(items[0], vs[0]), PackItems(items[1..], vs[1..]))
      case (Some(b), Some(bs)) => Some(b + bs)
      case _ => None
  }

  function UnpackItems(items: seq<Item>, bs: seq<Byte>): Option<seq<Value>>
  {
    if |bs| != CalcSize(items) then None
    else if items == [] then Some([])
    else
      var w := ItemSize(items[0]);
      var v := match items[0] case Number(c) => Num(NumOf(c, bs[..w])) case Blob(_) => Bytes(bs[..w]);
      match UnpackItems(items[1..], bs[w..])
      case None => None
      case Some(vs) => Some([v] + vs)
  }

  function ListItems(v: Value): Option<seq<Value>>
  {
    if v.List? then Some(v.vs) else None
  }

  function Emit(st: State, bytes: Option<seq<Byte>>): Option<State>
  {
    if bytes.None? then None else Some(st.(buff := st.buff + bytes.value))
  }

  function Bound(st: State, vars: Option<map<Var, Slot>>): Option<State>
  {
    if vars.None? then None else Some(st.(vars := vars.value))
  }

  /** `str[start:end]`; Python clips a slice to the string. */
  function Sliced(st: State, input: seq<Byte>): seq<Byte>
  {
    if st.start <= st.end <= |input| then input[st.start..st.end]
    else if st.start <= |input| < st.end then input[st.start..]
    else []
  }

  function AmountOf(a: Amount, st: State): nat
  {
    match a
    case Const(n) => n
    case LengthVar => st.length
    case CalcSizeOfPattern => Width(st.pattern.0) * st.pattern.1
  }

  // ---------------------------------------------------------------- constructors

  /** The value a field gets from a message constructor. */
  function DefaultBase(base: Base): Value
    decreases base, 0
  {
    match base
    case Prim(_) => Num(0)
    case Text => Bytes([])
    case Embedded(spec) => Rec(DefaultFields(spec.fields))
  }

  function DefaultField(base: Base, kind: Kind): Value
    decreases base, 1
  {
    match kind
    case Scalar => DefaultBase(base)
    case VarLength => if IsByteArray(base, kind) then Bytes([]) else List([])
    case FixedLength(n) =>
      if IsByteArray(base, kind) then Bytes(Repeat(0, n)) else List(Repeat(DefaultBase(base), n))
  }

  function DefaultFields(fs: seq<Field>): map<string, Value>
    decreases fs
  {
    if fs == [] then map[]
    else
      var rest := DefaultFields(fs[1..]);
      if fs[0].name == [] then rest else rest[fs[0].name[0] := DefaultField(fs[0].base, fs[0].kind)]
  }

  // ---------------------------------------------------------------- execution

  function Truth(v: Value): Option<Value>
  {
    if v.Num? then Some(Num(if v.n == 0 then 0 else 1)) else None
  }

  function TruthAll(vs: seq<Value>): Option<seq<Value>>
  {
    if vs == [] then Some([])
    else match (Truth(vs[0]), TruthAll(vs[1..]))
      case (Some(b), Some(bs)) => Some([b] + bs)
      case _ => None
  }

  function StructItems(env: Env, pattern: string): Option<seq<Item>>
  {
    if pattern in env.structs then Items(pattern) else None
  }

  function Written(st: State, items: Option<seq<Item>>, vs: Option<seq<Value>>): Option<State>
  {
    if items.None? || vs.None? then None else Emit(st, PackItems(items.value, vs.value))
  }

  function ReadItems(st: State, env: Env, items: Option<seq<Item>>): Option<seq<Value>>
  {
    if items.None? then None else UnpackItems(items.value, Sliced(st, env.input))
  }

  /** The list a path holds, for `*p` and `for x in p`. */
  function LookupList(vars: map<Var, Slot>, p: Path): Option<seq<Value>>
  {
    match Lookup(vars, p) case Some(v) => ListItems(v) case None => None
  }

  /** Statements without a body. */
  function Step(s: Stmt, st: State, env: Env): Option<State>
  {
    match s
    case Pass => Some(st)
    case Assign(x, p) =>
      (match Lookup(st.vars, p)
       case None => None
       case Some(v) => Some(st.(vars := st.vars[x := if v.Rec? then Alias(Target(st.vars, p)) else Own(v)])))
    case Len(p) =>
      (match Lookup(st.vars, p)
       case Some(v) => if v.Bytes? || v.List? then Some(st.(length := LengthOf(v))) else None
       case None => None)
    case WriteLength =>
      if "I" in env.structs && st.length < UINT32_LIMIT then Some(st.(buff := st.buff + LE(st.length, 4))) else None
    case WriteStruct(pattern, ps) => Written(st, StructItems(env, pattern), LookupAll(st.vars, ps))
    case WriteStar(pattern, p) => Written(st, StructItems(env, pattern), LookupList(st.vars, p))
    case WriteText(p) =>
      (match Lookup(st.vars, p)
       case Some(v) =>
         if v.Bytes? && st.length < UINT32_LIMIT
         then Some(st.(buff := st.buff + LE(st.length, 4) + Fit(v.b, st.length))) else None
       case None => None)
    case WriteTextList(p) =>
      if st.length < UINT32_LIMIT
      then Written(st.(buff := st.buff + LE(st.length, 4)),
                   Some(Repeat(Number('B'), st.length)), LookupList(st.vars, p))
      else None
    case SetPattern(code) => Some(st.(pattern := (code, st.length)))
    case WritePattern(p) =>
      Written(st, Some(Repeat(Number(st.pattern.0), st.pattern.1)), LookupList(st.vars, p))
    case ResetEnd => Some(st.(end := 0))
    case StartEnd => Some(st.(start := st.end))
    case Advance(delta) => Some(st.(end := st.end + AmountOf(delta, st)))
    case ReadLength =>
      var bs := Sliced(st, env.input);
      if "I" in env.structs && |bs| == 4 then Some(st.(length := UnLE(bs))) else None
    case ReadStruct(pattern, ps) =>
      (match ReadItems(st, env, StructItems(env, pattern))
       case Some(vs) => Bound(st, StoreAll(st.vars, ps, vs))
       case None => None)
    case ReadStar(pattern, p) =>
      (match ReadItems(st, env, StructItems(env, pattern))
       case Some(vs) => Bound(st, Store(st.vars, p, List(vs)))
       case None => None)
    case ReadPattern(p) =>
      (match ReadItems(st, env, Some(Repeat(Number(st.pattern.0), st.pattern.1)))
       case Some(vs) => Bound(st, Store(st.vars, p, List(vs)))
       case None => None)
    case Slice(p) => Bound(st, Store(st.vars, p, Bytes(Sliced(st, env.input))))
    case ToBool(p) =>
      (match Lookup(st.vars, p)
       case Some(v) => (match Truth(v) case Some(b) => Bound(st, Store(st.vars, p, b)) case None => None)
       case None => None)
    case MapBool(p) =>
      (match LookupList(st.vars, p)
       case Some(vs) => (match TruthAll(vs) case Some(bs) => Bound(st, Store(st.vars, p, List(bs))) case None => None)
       case None => None)
    case SetEmpty(p) => Bound(st, Store(st.vars, p, List([])))
    case New(p, spec) => Bound(st, Store(st.vars, p, DefaultBase(Embedded(spec))))
    case Append(p, x) =>
      (match (LookupList(st.vars, p), Lookup(st.vars, Path(x, [])))
       case (Some(vs), Some(v)) => Bound(st, Store(st.vars, p, List(vs + [v])))
       case _ => None)
    case _ => None
  }

  function Run(s: Stmt, st: State, env: Env): Option<State>
    decreases s, 0
  {
    match s
    case IfList(p, thn, els) =>
      (match Lookup(st.vars, p)
       case Some(v) => if v.List? then Exec(thn, st, env) else Exec(els, st, env)
       case None => None)
    case IfNone(p, thn) =>
      (match Lookup(st.vars, p)
       case Some(v) => if v.NoneValue? then Exec(thn, st, env) else Some(st)
       case None => None)
    case ForIn(x, p, body) =>
      (match LookupList(st.vars, p)
       case Some(vs) => ExecFor(x, vs, body, st, env)
       case None => None)
    case ForRange(times, body) => ExecRepeat(AmountOf(times, st), body, st, env)
    case _ => Step(s, st, env)
  }

  function Exec(code: seq<Stmt>, st: State, env: Env): Option<State>
    decreases code, 0
  {
    if code == [] then Some(st)
    else match Run(code[0], st, env)
      case None => None
      case Some(st') => Exec(code[1..], st', env)
  }

  function ExecFor(x: Var, vs: seq<Value>, body: seq<Stmt>, st: State, env: Env): Option<State>
    decreases body, 1 + |vs|
  {
    if vs == [] then Some(st)
    else match Exec(body, st.(vars := st.vars[x := Own(vs[0])]), env)
      case None => None
      case Some(st') => ExecFor(x, vs[1..], body, st', env)
  }

  function ExecRepeat(n: nat, body: seq<Stmt>, st: State, env: Env): Option<State>
    decreases body, 1 + n
  {
    if n == 0 then Some(st)
    else match Exec(body, st, env)
      case None => None
      case Some(st') => ExecRepeat(n - 1, body, st', env)
  }
}
