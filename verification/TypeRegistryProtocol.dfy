/** Registration and creation of types by many threads at once (AddTypeInfo, GetTypeInfo and
    GetOrCreateTypeInfo in runtime/src/TypeInfoManager.cpp), over the states of `TypeRegistry`.

    The test for a UUID, the numbering of a template, the reading of an argument's UUID, the lookup of a
    descriptor, its insertion and the section under the type lock are one step each; so are, when a type is
    created, the test that its descriptor is empty and the store into it, which takes no lock. Between steps
    other threads run. Computing the hash of a key registers the arguments first, so a thread has a stack of
    calls. Images may bring templates and type infos at any time; nothing is unloaded. */
module TypeRegistryProtocol {

  import opened Sealing
  import opened TypeRegistry

  type Thread = nat

  /** A template and arguments. */
  datatype Key = Key(tt: Template, args: seq<TypeInfo>)

  ghost function ShapeOf(k: Key): Shape {
    Inst(k.tt.name, Shapes(k.args))
  }

  ghost function KeyOf(ti: TypeInfo): Key
    requires ti.Keyed() && ti.Linked()
  {
    Key(ti.source, ti.Args())
  }

  /** Where a call is. `ti` is the type info being registered, null in a call that wants a type created.
      `Hashing` has the template's UUID and those of the first arguments; `asked` says that the next
      argument had none and was registered by an inner call. `Missing` has not found the key, `Found` and
      `Naming` are about to take the lock, `Creating` has seen the descriptor empty. */
  datatype Frame =
    | Entered(ti: TypeInfo?)
    | Keying(ti: TypeInfo?, key: Key)
    | Hashing(ti: TypeInfo?, key: Key, uuids: seq<nat>, asked: bool)
    | Missing(ti: TypeInfo?, key: Key, uuids: seq<nat>)
    | Found(ti: TypeInfo?, key: Key, d: Desc)
    | Naming(ti: TypeInfo?)
    | Creating(ti: TypeInfo?, key: Key, d: Desc)

  /** The registry, the calls under way of every thread, innermost last, and who inserted each descriptor. */
  datatype Config = Config(reg: State, calls: map<Thread, seq<Frame>>, maker: map<Desc, Thread>)

  /** What the innermost call of a thread does next. */
  datatype Action =
    | Test
    | Number
    | Ask
    | Fold
    | Look(found: Desc?)
    | Insert(d: Desc)
    | Lock
    | CheckEmpty
    | Store(created: TypeInfo)
    | Leave

  datatype Step =
    | LoadTemplate(tt: Template)
    | LoadType(ti: TypeInfo)
    | Call(t: Thread, ti: TypeInfo)
    | Demand(t: Thread, key: Key)
    | Act(t: Thread, a: Action, fs: seq<Frame>)

  // ---- sections on the registry ----------------------------------------------------------------

  ghost function Registered(v: State, ti: TypeInfo): State {
    v.(registered := v.registered + {ti})
  }

  ghost function Shared(v: State, ti: TypeInfo, u: nat): State {
    v.(tiu := v.tiu[ti := u], registered := v.registered + {ti})
  }

  ghost function Numbered(v: State, ti: TypeInfo): State {
    v.(tiu := v.tiu[ti := v.tiMax], tiMax := v.tiMax + 1, registered := v.registered + {ti},
       canon := v.canon[ti.shape := v.tiMax], shapes := v.shapes[v.tiMax := ti.shape])
  }

  /** Under the template lock. */
  ghost function NumberTemplate(v: State, tt: Template): State
    requires tt in v.ttu
  {
    if v.ttu[tt] != 0 then v
    else if tt.name in v.typeTemplates && v.typeTemplates[tt.name] in v.ttu then
      v.(ttu := v.ttu[tt := v.ttu[v.typeTemplates[tt.name]]])
    else
      v.(ttu := v.ttu[tt := v.ttMax], ttMax := v.ttMax + 1,
         typeTemplates := v.typeTemplates[tt.name := tt], names := v.names[v.ttMax := tt.name])
  }

  /** Under the type lock, with a descriptor in hand. */
  ghost function LockGeneric(v: State, ti: TypeInfo, d: Desc): State
    requires ti in v.tiu && d in v.held
  {
    if v.tiu[ti] != 0 then Registered(v, ti)
    else if v.held[d] != null && v.held[d] in v.tiu && v.tiu[v.held[d]] != 0 then Shared(v, ti, v.tiu[v.held[d]])
    else Numbered(v, ti).(held := v.held[d := ti])
  }

  /** Under the type lock, for a type known by name. */
  ghost function LockNamed(v: State, ti: TypeInfo): State
    requires ti in v.tiu
  {
    if v.tiu[ti] != 0 then Registered(v, ti)
    else if ti.name in v.nonGeneric && v.nonGeneric[ti.name] in v.tiu then Shared(v, ti, v.tiu[v.nonGeneric[ti.name]])
    else Numbered(v, ti).(nonGeneric := v.nonGeneric[ti.name := ti])
  }

  /** The stored descriptor agrees with the key, field by field. */
  ghost predicate Agrees(v: State, d: Desc, tt: Template, uuids: seq<nat>) {
    && (d.template == tt || (d.template in v.ttu && tt in v.ttu && v.ttu[d.template] == v.ttu[tt]))
    && |d.args| == |uuids|
    && forall i | 0 <= i < |uuids| :: d.args[i] in v.tiu && v.tiu[d.args[i]] == uuids[i]
  }

  /** What a search of the key's chain returns: a descriptor that agrees, or nothing if none does. */
  ghost predicate Finds(v: State, tt: Template, uuids: seq<nat>, d: Desc?) {
    && |v.buckets| == BUCKETS && tt in v.ttu
    && var chain := Chain(v.buckets, HashOf(v.ttu[tt], uuids));
       if d != null then d in chain && Agrees(v, d, tt, uuids)
       else forall e <- chain :: !Agrees(v, e, tt, uuids)
  }

  // ---- steps -----------------------------------------------------------------------------------

  ghost predicate HasNext(f: Frame) {
    f.Hashing? && |f.uuids| < |f.key.args|
  }

  ghost function NextArg(f: Frame): TypeInfo
    requires HasNext(f)
  {
    f.key.args[|f.uuids|]
  }

  ghost predicate KeyKnown(v: State, k: Key) {
    k.tt in v.ttu && forall i | 0 <= i < |k.args| :: k.args[i] in v.tiu
  }

  /** A fresh descriptor made from the key. */
  ghost predicate NewFor(v: State, f: Frame, d: Desc) {
    && f.Missing? && d !in v.held && d.template == f.key.tt && d.args == f.key.args
    && f.key.tt in v.ttu && d.hash == HashOf(v.ttu[f.key.tt], f.uuids) && d.shape == ShapeOf(f.key)
  }

  // The call `f` takes the registry from `v` to `w` and is replaced by `fs`: by nothing when it returns, and
  // by an inner call on top of it when it registers an argument.

  ghost predicate Tests(v: State, f: Frame, w: State, fs: seq<Frame>) {
    && f.Entered? && f.ti != null && f.ti in v.tiu && f.ti.Linked()
    && (if v.tiu[f.ti] != 0 then w == Registered(v, f.ti) && fs == []
        else w == v && fs == [if f.ti.Keyed() then Keying(f.ti, KeyOf(f.ti)) else Naming(f.ti)])
  }

  ghost predicate NumbersTemplate(v: State, f: Frame, w: State, fs: seq<Frame>) {
    && f.Keying? && f.key.tt in v.ttu
    && w == NumberTemplate(v, f.key.tt) && fs == [Hashing(f.ti, f.key, [], false)]
  }

  ghost predicate Asks(v: State, f: Frame, w: State, fs: seq<Frame>) {
    && HasNext(f) && !f.asked && NextArg(f) in v.tiu && v.tiu[NextArg(f)] == 0
    && w == v && fs == [f.(asked := true), Entered(NextArg(f))]
  }

  ghost predicate Folds(v: State, f: Frame, w: State, fs: seq<Frame>) {
    && HasNext(f) && NextArg(f) in v.tiu && (f.asked || v.tiu[NextArg(f)] != 0)
    && w == v && fs == [Hashing(f.ti, f.key, f.uuids + [v.tiu[NextArg(f)]], false)]
  }

  ghost predicate Looks(v: State, f: Frame, d: Desc?, w: State, fs: seq<Frame>) {
    && f.Hashing? && |f.uuids| == |f.key.args| && Finds(v, f.key.tt, f.uuids, d)
    && w == v && fs == [if d != null then Found(f.ti, f.key, d) else Missing(f.ti, f.key, f.uuids)]
  }

  ghost predicate Inserts(v: State, f: Frame, d: Desc, w: State, fs: seq<Frame>) {
    && f.Missing? && fs == [Found(f.ti, f.key, d)]
    && (if Finds(v, f.key.tt, f.uuids, null) then NewFor(v, f, d) && Pushes(v, w, d)
        else Finds(v, f.key.tt, f.uuids, d) && w == v)
  }

  ghost predicate Locks(v: State, f: Frame, w: State, fs: seq<Frame>) {
    && f.ti != null && f.ti in v.tiu && fs == []
    && ((f.Found? && f.d in v.held && w == LockGeneric(v, f.ti, f.d)) || (f.Naming? && w == LockNamed(v, f.ti)))
  }

  ghost predicate ChecksEmpty(v: State, f: Frame, w: State, fs: seq<Frame>) {
    && f.Found? && f.ti == null && f.d in v.held && v.held[f.d] == null
    && w == v && fs == [Creating(null, f.key, f.d)]
  }

  /** The store looks at nothing: a type info that was put there since the test is overwritten. */
  ghost predicate Stores(v: State, f: Frame, ti: TypeInfo, w: State, fs: seq<Frame>) {
    && f.Creating? && f.d in v.held && KeyKnown(v, f.key)
    && ti !in v.tiu && ti.Shaped() && ti.Keyed() && KeyOf(ti) == f.key
    && w == v.(tiu := v.tiu[ti := 0], held := v.held[f.d := ti]) && fs == []
  }

  ghost predicate Leaves(v: State, f: Frame, w: State, fs: seq<Frame>) {
    f.Found? && f.ti == null && f.d in v.held && v.held[f.d] != null && w == v && fs == []
  }

  ghost predicate Moves(v: State, f: Frame, a: Action, w: State, fs: seq<Frame>) {
    match a
    case Test => Tests(v, f, w, fs)
    case Number => NumbersTemplate(v, f, w, fs)
    case Ask => Asks(v, f, w, fs)
    case Fold => Folds(v, f, w, fs)
    case Look(d) => Looks(v, f, d, w, fs)
    case Insert(d) => Inserts(v, f, d, w, fs)
    case Lock => Locks(v, f, w, fs)
    case CheckEmpty => ChecksEmpty(v, f, w, fs)
    case Store(ti) => Stores(v, f, ti, w, fs)
    case Leave => Leaves(v, f, w, fs)
  }

  ghost function CallsOf(c: Config, t: Thread): seq<Frame> {
    if t in c.calls then c.calls[t] else []
  }

  ghost function Innermost(c: Config, t: Thread): Frame
    requires CallsOf(c, t) != []
  {
    CallsOf(c, t)[|CallsOf(c, t)| - 1]
  }

  /** Only the thread that inserted a descriptor creates its type info. */
  ghost predicate Next(c: Config, step: Step, c': Config) {
    match step
    case LoadTemplate(tt) => tt !in c.reg.ttu && c' == c.(reg := c.reg.(ttu := c.reg.ttu[tt := 0]))
    case LoadType(ti) => Brings(c.reg, c'.reg, ti) && c' == c.(reg := c'.reg)
    case Call(t, ti) => CallsOf(c, t) == [] && ti in c.reg.tiu && c' == c.(calls := c.calls[t := [Entered(ti)]])
    case Demand(t, key) =>
      CallsOf(c, t) == [] && KeyKnown(c.reg, key) && c' == c.(calls := c.calls[t := [Keying(null, key)]])
    case Act(t, a, fs) =>
      var calls := CallsOf(c, t);
      && calls != [] && Moves(c.reg, Innermost(c, t), a, c'.reg, fs)
      && (a.CheckEmpty? ==> Innermost(c, t).d in c.maker && c.maker[Innermost(c, t).d] == t)
      && c'.calls == c.calls[t := calls[..|calls| - 1] + fs]
      && c'.maker == if a.Insert? && a.d !in c.reg.held then c.maker[a.d := t] else c.maker
  }

  /** `d` has a type info with a UUID. */
  ghost predicate Settled(v: State, d: Desc) {
    d in v.held && v.held[d] != null && v.held[d] in v.tiu && v.tiu[v.held[d]] != 0
  }

  /** The step stores a created type info over one that has a UUID. */
  ghost predicate Clobbers(c: Config, step: Step) {
    step.Act? && step.a.Store? && CallsOf(c, step.t) != [] && Innermost(c, step.t).Creating? &&
    Settled(c.reg, Innermost(c, step.t).d)
  }

  // ---- what holds in every run -----------------------------------------------------------------

  /** Nothing that has a UUID changes it, and nothing known is forgotten. */
  ghost predicate Later(v: State, w: State) {
    && v.ttu.Keys <= w.ttu.Keys && v.tiu.Keys <= w.tiu.Keys && v.held.Keys <= w.held.Keys
    && v.registered <= w.registered
    && (forall t <- v.ttu :: v.ttu[t] != 0 ==> w.ttu[t] == v.ttu[t])
    && (forall t <- v.tiu :: v.tiu[t] != 0 ==> w.tiu[t] == v.tiu[t])
  }

  lemma LaterTrans(u: State, v: State, w: State)
    requires Later(u, v) && Later(v, w)
    ensures Later(u, w)
  {
  }

  /** The arguments of an instantiated type have UUIDs. */
  ghost predicate ArgsNumbered(v: State, ti: TypeInfo) {
    ti.Keyed() && ti.Linked() ==> forall i | 0 <= i < |ti.Args()| :: ti.Args()[i] in v.tiu && v.tiu[ti.Args()[i]] != 0
  }

  /** What has a UUID is registered, and its arguments have UUIDs too. */
  ghost predicate Grounded(v: State) {
    forall t <- v.tiu :: v.tiu[t] != 0 ==> t in v.registered && ArgsNumbered(v, t)
  }

  /** Counters are positive, and what the tables name has a UUID. */
  ghost predicate Counted(v: State) {
    && 1 <= v.ttMax && 1 <= v.tiMax
    && (forall n <- v.typeTemplates :: v.typeTemplates[n] in v.ttu && v.ttu[v.typeTemplates[n]] != 0)
    && (forall n <- v.nonGeneric :: v.nonGeneric[n] in v.tiu && v.tiu[v.nonGeneric[n]] != 0)
    && (forall t <- v.registered :: t in v.tiu && v.tiu[t] != 0)
    && (forall t <- v.tiu :: v.tiu[t] < v.tiMax)
  }

  /** All of this, sealed. */
  ghost predicate Basic(v: State) {
    forall k: nat :: Opens(k) ==> v.WorldOk() && v.ChainsOk() && Counted(v) && Grounded(v)
  }

  lemma OpenBasic(v: State)
    requires Basic(v)
    ensures v.WorldOk() && v.ChainsOk() && Counted(v) && Grounded(v)
  {
    assert Opens(0);
  }

  /** `ti` is registered with a UUID, and no other type info is numbered. */
  ghost predicate OnlyOwn(v: State, w: State, ti: TypeInfo) {
    && ti in w.registered && ti in w.tiu && w.tiu[ti] != 0
    && forall t <- w.tiu :: t == ti || (t in v.tiu && w.tiu[t] == v.tiu[t])
  }

  lemma GroundedKept(v: State, w: State, ti: TypeInfo)
    requires Grounded(v) && Later(v, w) && OnlyOwn(v, w, ti) && ArgsNumbered(v, ti)
    ensures Grounded(w)
  {
  }

  /** `ti` is registered with the UUID `u`, which it had or which it gets. */
  ghost predicate Registers(v: State, w: State, ti: TypeInfo, u: nat) {
    && ti in v.tiu && (v.tiu[ti] == 0 || v.tiu[ti] == u) && 0 < u < w.tiMax && v.tiMax <= w.tiMax
    && w.tiu == v.tiu[ti := u] && w.registered == v.registered + {ti}
    && w.ttu == v.ttu && w.ttMax == v.ttMax && w.typeTemplates == v.typeTemplates
    && (w.nonGeneric == v.nonGeneric || w.nonGeneric == v.nonGeneric[ti.name := ti])
    && w.buckets == v.buckets && w.held.Keys == v.held.Keys
  }

  lemma RegistersLater(v: State, w: State, ti: TypeInfo, u: nat)
    requires Registers(v, w, ti, u)
    ensures Later(v, w) && OnlyOwn(v, w, ti)
  {
  }

  lemma RegistersCounted(v: State, w: State, ti: TypeInfo, u: nat)
    requires Registers(v, w, ti, u) && v.WorldOk() && Counted(v)
    ensures w.WorldOk() && Counted(w)
  {
  }

  lemma RegistersBasic(v: State, w: State, ti: TypeInfo, u: nat)
    requires Basic(v) && Registers(v, w, ti, u) && ArgsNumbered(v, ti)
    ensures Basic(w) && Later(v, w) && OnlyOwn(v, w, ti)
  {
    OpenBasic(v);
    RegistersLater(v, w, ti, u);
    RegistersCounted(v, w, ti, u);
    GroundedKept(v, w, ti);
    ChainsKept(v, w);
  }

  lemma UUIDBound(v: State, ti: TypeInfo)
    requires Basic(v) && ti in v.tiu
    ensures v.tiu[ti] < v.tiMax
  {
    OpenBasic(v);
  }

  lemma RegisteredIs(v: State, ti: TypeInfo)
    requires ti in v.tiu && 0 < v.tiu[ti] < v.tiMax
    ensures Registers(v, Registered(v, ti), ti, v.tiu[ti])
  {
    assert v.tiu == v.tiu[ti := v.tiu[ti]];
  }

  lemma SharedIs(v: State, ti: TypeInfo, u: nat)
    requires ti in v.tiu && v.tiu[ti] == 0 && 0 < u < v.tiMax
    ensures Registers(v, Shared(v, ti, u), ti, u)
  {
  }

  lemma FirstIs(v: State, ti: TypeInfo, d: Desc)
    requires ti in v.tiu && v.tiu[ti] == 0 && 0 < v.tiMax && d in v.held
    ensures Registers(v, Numbered(v, ti).(held := v.held[d := ti]), ti, v.tiMax)
  {
    assert v.held[d := ti].Keys == v.held.Keys;
  }

  lemma LockGenericIs(v: State, ti: TypeInfo, d: Desc)
    requires ti in v.tiu && d in v.held && v.tiu[ti] < v.tiMax
    requires v.held[d] != null && v.held[d] in v.tiu ==> v.tiu[v.held[d]] < v.tiMax
    ensures var w := LockGeneric(v, ti, d); ti in w.tiu && Registers(v, w, ti, w.tiu[ti])
  {
    if v.tiu[ti] != 0 {
      RegisteredIs(v, ti);
    } else if v.held[d] != null && v.held[d] in v.tiu && v.tiu[v.held[d]] != 0 {
      SharedIs(v, ti, v.tiu[v.held[d]]);
    } else {
      FirstIs(v, ti, d);
    }
  }

  lemma LockGenericBasic(v: State, ti: TypeInfo, d: Desc, w: State)
    requires Basic(v) && ti in v.tiu && d in v.held && ArgsNumbered(v, ti) && w == LockGeneric(v, ti, d)
    ensures Basic(w) && Later(v, w) && OnlyOwn(v, w, ti)
  {
    UUIDBound(v, ti);
    if v.held[d] != null && v.held[d] in v.tiu {
      UUIDBound(v, v.held[d]);
    }
    LockGenericIs(v, ti, d);
    RegistersBasic(v, w, ti, w.tiu[ti]);
  }

  lemma LockNamedIs(v: State, ti: TypeInfo)
    requires ti in v.tiu && v.tiu[ti] < v.tiMax
    requires ti.name in v.nonGeneric ==> v.nonGeneric[ti.name] in v.tiu && 0 < v.tiu[v.nonGeneric[ti.name]] < v.tiMax
    ensures var w := LockNamed(v, ti); ti in w.tiu && Registers(v, w, ti, w.tiu[ti])
  {
    if v.tiu[ti] != 0 {
      RegisteredIs(v, ti);
    } else if ti.name in v.nonGeneric {
      SharedIs(v, ti, v.tiu[v.nonGeneric[ti.name]]);
    } else {
      assert Registers(v, Numbered(v, ti).(nonGeneric := v.nonGeneric[ti.name := ti]), ti, v.tiMax);
    }
  }

  lemma LockNamedBasic(v: State, ti: TypeInfo, w: State)
    requires Basic(v) && ti in v.tiu && !ti.Keyed() && w == LockNamed(v, ti)
    ensures Basic(w) && Later(v, w) && OnlyOwn(v, w, ti)
  {
    UUIDBound(v, ti);
    assert ti.name in v.nonGeneric ==> v.nonGeneric[ti.name] in v.tiu && 0 < v.tiu[v.nonGeneric[ti.name]] < v.tiMax by {
      OpenBasic(v);
    }
    LockNamedIs(v, ti);
    RegistersBasic(v, w, ti, w.tiu[ti]);
  }

  lemma SameTypes(v: State, w: State)
    requires Grounded(v) && w.tiu == v.tiu && w.registered == v.registered
    ensures Grounded(w)
  {
    forall t | t in w.tiu && w.tiu[t] != 0 ensures t in w.registered && ArgsNumbered(w, t) {
      assert ArgsNumbered(v, t);
    }
  }

  /** Template `tt` gets the UUID `u`, alone or as the first of its name. */
  ghost predicate NumbersOne(v: State, w: State, tt: Template, u: nat) {
    && tt in v.ttu && v.ttu[tt] == 0 && u != 0 && v.ttMax <= w.ttMax
    && w == v.(ttu := v.ttu[tt := u], ttMax := w.ttMax, typeTemplates := w.typeTemplates, names := w.names)
    && (w.typeTemplates == v.typeTemplates || w.typeTemplates == v.typeTemplates[tt.name := tt])
  }

  lemma NumbersOneBasic(v: State, w: State, tt: Template, u: nat)
    requires Basic(v) && NumbersOne(v, w, tt, u)
    ensures Basic(w) && Later(v, w)
  {
    OpenBasic(v);
    assert Later(v, w);
    SameTypes(v, w);
    ChainsKept(v, w);
    WorldKept(v, w);
    assert Counted(w);
  }

  lemma NumberTemplateBasic(v: State, tt: Template)
    requires Basic(v) && tt in v.ttu
    ensures var w := NumberTemplate(v, tt); Basic(w) && Later(v, w) && w.ttu[tt] != 0
  {
    if v.ttu[tt] == 0 {
      TemplateUUIDs(v, tt.name);
      NumbersOneBasic(v, NumberTemplate(v, tt), tt, NumberTemplate(v, tt).ttu[tt]);
    }
  }

  lemma TemplateUUIDs(v: State, n: string)
    requires Basic(v)
    ensures v.ttMax != 0
    ensures n in v.typeTemplates ==> v.typeTemplates[n] in v.ttu && v.ttu[v.typeTemplates[n]] != 0
  {
    OpenBasic(v);
  }

  lemma PushedBasic(v: State, w: State, d: Desc)
    requires Basic(v) && Pushes(v, w, d)
    ensures Basic(w) && Later(v, w)
  {
    OpenBasic(v);
    SameTypes(v, w);
    PushedChains(v, w, d);
    assert w.WorldOk() && Counted(w);
  }

  /** A type info without a UUID is added, and perhaps put into a descriptor. */
  lemma BroughtBasic(v: State, w: State, ti: TypeInfo)
    requires Basic(v) && ti !in v.tiu && ti.Shaped() && (ti.Keyed() ==> KeyKnown(v, KeyOf(ti)))
    requires w == v.(tiu := v.tiu[ti := 0], held := w.held) && v.held.Keys == w.held.Keys
    ensures Basic(w) && Later(v, w)
  {
    OpenBasic(v);
    ChainsKept(v, w);
    assert w.WorldOk() && Counted(w);
    forall t | t in w.tiu && w.tiu[t] != 0 ensures t in w.registered && ArgsNumbered(w, t) {
      assert ArgsNumbered(v, t);
    }
  }

  /** What a call knows stays true while others run. */
  ghost predicate FrameOk(v: State, f: Frame) {
    && (f.ti != null ==> f.ti in v.tiu && f.ti.Linked())
    && (f.Keying? || f.Hashing? || f.Missing? || f.Found? || f.Creating? ==> KeyKnown(v, f.key))
    && (f.ti != null && (f.Keying? || f.Hashing? || f.Missing? || f.Found?) ==> f.ti.Keyed() && f.key == KeyOf(f.ti))
    && (f.Hashing? || f.Missing? || f.Found? || f.Creating? ==> v.ttu[f.key.tt] != 0)
    && match f
       case Entered(ti) => ti != null
       case Keying(_, _) => true
       case Hashing(_, key, uuids, asked) => Has(v, key.args, uuids, |uuids|) && (asked ==> HasNext(f))
       case Missing(_, key, uuids) => Has(v, key.args, uuids, |key.args|)
       case Found(_, key, d) => d in v.held && ArgsHave(v, key)
       case Naming(ti) => ti != null && !ti.Keyed()
       case Creating(ti, key, d) => ti == null && d in v.held && ArgsHave(v, key)
  }

  ghost predicate ArgsHave(v: State, k: Key) {
    forall i | 0 <= i < |k.args| :: k.args[i] in v.tiu && v.tiu[k.args[i]] != 0
  }

  lemma FrameKept(v: State, w: State, f: Frame)
    requires FrameOk(v, f) && Later(v, w)
    ensures FrameOk(w, f)
  {
  }

  /** An outer call waits for an inner one on its next argument. */
  ghost predicate WaitsFor(f: Frame, g: Frame) {
    HasNext(f) && f.asked && NextArg(f) == g.ti
  }

  /** Back from an inner call, the argument is registered. */
  ghost predicate Resumed(v: State, f: Frame) {
    f.Hashing? && f.asked ==> HasNext(f) && NextArg(f) in v.registered
  }

  ghost predicate Replaces(v: State, f: Frame, fs: seq<Frame>) {
    && |fs| <= 2
    && (|fs| == 0 && f.ti != null ==> f.ti in v.registered)
    && (|fs| == 1 ==> fs[0].ti == f.ti && FrameOk(v, fs[0]) && Resumed(v, fs[0]))
    && (|fs| == 2 ==>
          fs[0].ti == f.ti && FrameOk(v, fs[0]) && WaitsFor(fs[0], fs[1]) && FrameOk(v, fs[1]) && Resumed(v, fs[1]))
  }

  ghost predicate Ready(v: State, f: Frame) {
    Basic(v) && FrameOk(v, f) && Resumed(v, f)
  }

  ghost predicate Done(v: State, f: Frame, w: State, fs: seq<Frame>) {
    Basic(w) && Later(v, w) && Replaces(w, f, fs)
  }

  lemma MoveBasic(v: State, f: Frame, a: Action, w: State, fs: seq<Frame>)
    requires Ready(v, f) && Moves(v, f, a, w, fs)
    ensures Done(v, f, w, fs)
  {
    match a {
      case Test => TestBasic(v, f, w, fs);
      case Number => NumberTemplateBasic(v, f.key.tt);
      case Ask => AskBasic(v, f, fs);
      case Fold => FoldBasic(v, f);
      case Look(d) => LookBasic(v, f, d, fs);
      case Insert(d) => InsertBasic(v, f, d, w, fs);
      case Lock => LockBasic(v, f, w, fs);
      case CheckEmpty =>
      case Store(ti) => BroughtBasic(v, w, ti);
      case Leave =>
    }
  }

  lemma RegisteredBasic(v: State, ti: TypeInfo, w: State)
    requires Basic(v) && ti in v.tiu && v.tiu[ti] != 0 && w == Registered(v, ti)
    ensures Basic(w) && Later(v, w) && OnlyOwn(v, w, ti)
  {
    UUIDBound(v, ti);
    assert ArgsNumbered(v, ti) by { OpenBasic(v); }
    RegisteredIs(v, ti);
    RegistersBasic(v, w, ti, v.tiu[ti]);
  }

  lemma TestBasic(v: State, f: Frame, w: State, fs: seq<Frame>)
    requires Ready(v, f) && Tests(v, f, w, fs)
    ensures Done(v, f, w, fs)
  {
    if v.tiu[f.ti] != 0 {
      RegisteredBasic(v, f.ti, w);
    } else {
      KnownKey(v, f.ti);
    }
  }

  lemma KnownKey(v: State, ti: TypeInfo)
    requires Basic(v) && ti in v.tiu
    ensures ti.Shaped() && (ti.Keyed() ==> KeyKnown(v, KeyOf(ti)))
  {
    OpenBasic(v);
  }

  lemma AskBasic(v: State, f: Frame, fs: seq<Frame>)
    requires Ready(v, f) && Asks(v, f, v, fs)
    ensures Done(v, f, v, fs)
  {
    assert NextArg(f).Shaped() by { OpenBasic(v); }
  }

  /** The check after an inner call holds: the argument has a UUID. */
  lemma FoldBasic(v: State, f: Frame)
    requires Ready(v, f) && HasNext(f) && NextArg(f) in v.tiu && (f.asked || v.tiu[NextArg(f)] != 0)
    ensures v.tiu[NextArg(f)] != 0 && FrameOk(v, Hashing(f.ti, f.key, f.uuids + [v.tiu[NextArg(f)]], false))
  {
    OpenBasic(v);
  }

  lemma LookBasic(v: State, f: Frame, d: Desc?, fs: seq<Frame>)
    requires Ready(v, f) && Looks(v, f, d, v, fs)
    ensures Done(v, f, v, fs)
  {
    OpenBasic(v);
  }

  lemma InsertBasic(v: State, f: Frame, d: Desc, w: State, fs: seq<Frame>)
    requires Ready(v, f) && Inserts(v, f, d, w, fs)
    ensures Done(v, f, w, fs)
  {
    if Finds(v, f.key.tt, f.uuids, null) {
      PushedBasic(v, w, d);
    } else {
      OpenBasic(v);
    }
  }

  lemma LockBasic(v: State, f: Frame, w: State, fs: seq<Frame>)
    requires Ready(v, f) && Locks(v, f, w, fs)
    ensures Done(v, f, w, fs)
  {
    if f.Found? {
      assert ArgsNumbered(v, f.ti);
      LockGenericBasic(v, f.ti, f.d, w);
    } else {
      LockNamedBasic(v, f.ti, w);
    }
  }

  ghost predicate FramesOk(v: State, fs: seq<Frame>) {
    forall f <- fs :: FrameOk(v, f)
  }

  /** Every call but the innermost waits for the one above it. */
  ghost predicate CallsOk(v: State, fs: seq<Frame>) {
    && FramesOk(v, fs)
    && (forall i | 0 <= i < |fs| - 1 :: WaitsFor(fs[i], fs[i + 1]))
    && (fs != [] ==> Resumed(v, fs[|fs| - 1]))
  }

  ghost predicate Inv(c: Config) {
    Basic(c.reg) && forall t <- c.calls :: CallsOk(c.reg, c.calls[t])
  }

  lemma CallsKept(v: State, w: State, fs: seq<Frame>)
    requires CallsOk(v, fs) && Later(v, w)
    ensures CallsOk(w, fs)
  {
    forall f | f in fs ensures FrameOk(w, f) {
      FrameKept(v, w, f);
    }
  }

  lemma OthersKept(c: Config, c': Config)
    requires Inv(c) && Basic(c'.reg) && Later(c.reg, c'.reg)
    requires forall t <- c'.calls :: (t in c.calls && c'.calls[t] == c.calls[t]) || CallsOk(c'.reg, c'.calls[t])
    ensures Inv(c')
  {
    forall t | t in c'.calls ensures CallsOk(c'.reg, c'.calls[t]) {
      if t in c.calls && c'.calls[t] == c.calls[t] {
        CallsKept(c.reg, c'.reg, c.calls[t]);
      }
    }
  }

  /** The innermost call of a thread moves on, calls or returns. */
  lemma CallsMove(v: State, w: State, fs: seq<Frame>, gs: seq<Frame>)
    requires CallsOk(v, fs) && fs != [] && Later(v, w) && Replaces(w, fs[|fs| - 1], gs)
    ensures CallsOk(w, fs[..|fs| - 1] + gs)
  {
    CallsKept(v, w, fs);
    var rs := fs[..|fs| - 1] + gs;
    var n := |fs| - 1;
    forall f | f in rs ensures FrameOk(w, f) {
      assert f in fs[..n] || f in gs;
    }
    forall i | 0 <= i < |rs| - 1 ensures WaitsFor(rs[i], rs[i + 1]) {
      if i < n {
        assert WaitsFor(fs[i], fs[i + 1]);
      }
    }
    if gs == [] && n > 0 {
      assert WaitsFor(fs[n - 1], fs[n]);
    }
  }

  lemma StepInv(c: Config, step: Step, c': Config)
    requires Inv(c) && Next(c, step, c')
    ensures Inv(c') && Later(c.reg, c'.reg)
  {
    match step {
      case LoadTemplate(tt) => TemplateBasic(c.reg, c'.reg, tt);
      case LoadType(ti) => BroughtBasic(c.reg, c'.reg, ti);
      case Call(t, ti) => OpenBasic(c.reg);
      case Demand(t, key) =>
      case Act(t, a, fs) =>
        assert Innermost(c, t) in CallsOf(c, t);
        MoveBasic(c.reg, Innermost(c, t), a, c'.reg, fs);
        CallsMove(c.reg, c'.reg, CallsOf(c, t), fs);
    }
    OthersKept(c, c');
  }

  lemma TemplateBasic(v: State, w: State, tt: Template)
    requires Basic(v) && tt !in v.ttu && w == v.(ttu := v.ttu[tt := 0])
    ensures Basic(w) && Later(v, w)
  {
    OpenBasic(v);
    SameTypes(v, w);
    ChainsKept(v, w);
    assert w.WorldOk() && Counted(w);
  }

  // ---- runs ------------------------------------------------------------------------------------

  ghost predicate Init(c: Config) {
    && c.calls == map[] && c.maker == map[]
    && c.reg == State(1, 1, map[], map[], seq(BUCKETS, _ => map[]), {}, map[], map[], map[], map[], map[], map[], map[])
  }

  /** `cs[i]` is the configuration before step `i`. */
  ghost predicate IsPath(cs: seq<Config>, steps: seq<Step>) {
    |cs| == |steps| + 1 && forall i {:trigger steps[i]} :: 0 <= i < |steps| ==> Next(cs[i], steps[i], cs[i + 1])
  }

  ghost predicate IsRun(cs: seq<Config>, steps: seq<Step>) {
    IsPath(cs, steps) && Init(cs[0])
  }

  lemma {:induction false} RunInv(cs: seq<Config>, steps: seq<Step>, i: nat)
    requires IsRun(cs, steps) && i < |cs|
    ensures Inv(cs[i])
  {
    if i > 0 {
      RunInv(cs, steps, i - 1);
      StepInv(cs[i - 1], steps[i - 1], cs[i]);
    }
  }

  /** Arguments of registered instantiated types are registered, in every interleaving. */
  lemma ArgumentsRegistered(cs: seq<Config>, steps: seq<Step>, i: nat, ti: TypeInfo, k: nat)
    requires IsRun(cs, steps) && i < |cs| && ti in cs[i].reg.registered && ti.Keyed() && ti.Linked() && k < |ti.Args()|
    ensures ti.Args()[k] in cs[i].reg.registered
  {
    RunInv(cs, steps, i);
    OpenBasic(cs[i].reg);
    assert ArgsNumbered(cs[i].reg, ti);
  }

  /** A UUID once given is never changed. */
  lemma {:induction false} UUIDsStay(cs: seq<Config>, steps: seq<Step>, i: nat, j: nat)
    requires IsRun(cs, steps) && i <= j < |cs|
    ensures Later(cs[i].reg, cs[j].reg)
  {
    if i < j {
      UUIDsStay(cs, steps, i, j - 1);
      RunInv(cs, steps, j - 1);
      StepInv(cs[j - 1], steps[j - 1], cs[j]);
      LaterTrans(cs[i].reg, cs[j - 1].reg, cs[j].reg);
    }
  }

  /** A registration that returns leaves its type registered, with a UUID. */
  lemma CallRegisters(cs: seq<Config>, steps: seq<Step>, i: nat)
    requires IsRun(cs, steps) && i < |steps| && steps[i].Act? && steps[i].fs == []
    ensures CallsOf(cs[i], steps[i].t) != []
    ensures var ti := Innermost(cs[i], steps[i].t).ti;
      ti != null ==> ti in cs[i + 1].reg.registered && ti in cs[i + 1].reg.tiu && cs[i + 1].reg.tiu[ti] != 0
  {
    RunInv(cs, steps, i);
    RunInv(cs, steps, i + 1);
    assert Next(cs[i], steps[i], cs[i + 1]);
    assert Innermost(cs[i], steps[i].t) in CallsOf(cs[i], steps[i].t);
    MoveBasic(cs[i].reg, Innermost(cs[i], steps[i].t), steps[i].a, cs[i + 1].reg, []);
    OpenBasic(cs[i + 1].reg);
  }

  /** The check after registering an argument never fails: the argument has a UUID by then. */
  lemma ArgumentIsNumbered(cs: seq<Config>, steps: seq<Step>, i: nat, t: Thread)
    requires IsRun(cs, steps) && i < |cs| && CallsOf(cs[i], t) != []
    requires Innermost(cs[i], t).Hashing? && Innermost(cs[i], t).asked
    ensures var f := Innermost(cs[i], t);
      HasNext(f) && NextArg(f) in cs[i].reg.tiu && cs[i].reg.tiu[NextArg(f)] != 0
  {
    RunInv(cs, steps, i);
    OpenBasic(cs[i].reg);
  }

  /** An inner call is on a smaller type than every call around it: no call waits for itself, and the nesting
      ends. */
  lemma {:induction false} CallsNest(cs: seq<Config>, steps: seq<Step>, i: nat, t: Thread, j: nat, k: nat)
    requires IsRun(cs, steps) && i < |cs| && j < k < |CallsOf(cs[i], t)|
    ensures var calls := CallsOf(cs[i], t);
      calls[k].ti != null && calls[j].Hashing? && calls[k].ti.shape < ShapeOf(calls[j].key) &&
        calls[k].ti != calls[j].ti
    decreases k
  {
    var calls := CallsOf(cs[i], t);
    RunInv(cs, steps, i);
    assert WaitsFor(calls[k - 1], calls[k]) && WaitsFor(calls[j], calls[j + 1]);
    assert calls[k - 1] in calls && calls[j] in calls;
    InnerIsSmaller(calls[k - 1], calls[k]);
    if calls[j].ti != null {
      OwnShape(cs[i].reg, calls[j]);
    }
    if j < k - 1 {
      CallsNest(cs, steps, i, t, j, k - 1);
      OwnShape(cs[i].reg, calls[k - 1]);
    }
  }

  lemma InnerIsSmaller(f: Frame, g: Frame)
    requires WaitsFor(f, g)
    ensures g.ti != null && g.ti.shape < ShapeOf(f.key)
  {
    assert ShapeOf(f.key).args[|f.uuids|] == g.ti.shape;
  }

  lemma OwnShape(v: State, f: Frame)
    requires Basic(v) && FrameOk(v, f) && f.ti != null && f.Hashing?
    ensures f.ti.shape == ShapeOf(f.key)
  {
    OpenBasic(v);
    assert f.ti.Shaped();
  }
}
