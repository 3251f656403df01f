/** Hash-consing of types into UUIDs (TypeInfoManager in runtime/src/TypeInfoManager.cpp).

    Images bring type infos and templates with UUID 0; registration gives every type info the UUID of
    its structural type. Counters do not overflow and nothing is unloaded. */
module TypeRegistry {

  import opened Common
  import opened Sealing

  // ---- types -----------------------------------------------------------------------------------

  /** What a type is, independently of which copy of its type info is at hand. */
  datatype Shape = Named(name: string) | Inst(template: string, args: seq<Shape>)

  const BUCKETS: nat := 1024

  class Template {
    const name: string
    var uuid: nat

    constructor (name: string)
      ensures this.name == name && uuid == 0
    {
      this.name := name;
      uuid := 0;
    }
  }

  class TypeInfo {
    const name: string
    const kind: Kind
    const generic: bool
    const source: Template?
    const component: TypeInfo?
    const typeArgs: seq<TypeInfo>
    var uuid: nat

    /** The structural type, fixed by `Shaped`. */
    ghost const shape: Shape

    /** Identified by template and arguments, not by name. */
    predicate Keyed() {
      generic && kind != VArray
    }

    ghost predicate Linked() {
      Keyed() ==> source != null && (kind == RawArray || kind == CPointer ==> component != null)
    }

    function Args(): seq<TypeInfo>
      requires Keyed() && Linked()
    {
      if kind == RawArray || kind == CPointer then [component] else typeArgs
    }

    ghost predicate Shaped() {
      Linked() && shape == if Keyed() then Inst(source.name, Shapes(Args())) else Named(name)
    }

    constructor Plain(name: string, kind: Kind)
      ensures Shaped() && !Keyed() && shape == Named(name) && uuid == 0
    {
      this.name := name;
      this.kind := kind;
      generic := false;
      source, component, typeArgs, uuid := null, null, [], 0;
      shape := Named(name);
    }

    constructor Instance(name: string, kind: Kind, template: Template, args: seq<TypeInfo>)
      requires kind != VArray && (kind == RawArray || kind == CPointer ==> |args| == 1)
      ensures Shaped() && Keyed() && shape == Inst(template.name, Shapes(args)) && Args() == args
      ensures uuid == 0 && source == template
    {
      this.name := name;
      this.kind := kind;
      generic := true;
      source := template;
      component := if |args| == 1 then args[0] else null;
      typeArgs := args;
      uuid := 0;
      shape := Inst(template.name, Shapes(args));
    }
  }

  ghost function Shapes(ts: seq<TypeInfo>): (r: seq<Shape>)
    ensures |r| == |ts|
  {
    seq(|ts|, i requires 0 <= i < |ts| => ts[i].shape)
  }

  /** Structural equality: the same name, or the same template name and pairwise equal arguments. */
  lemma SameShape(a: TypeInfo, b: TypeInfo)
    requires a.Shaped() && b.Shaped()
    ensures a.shape == b.shape <==>
      if a.Keyed() && b.Keyed() then
        && a.source.name == b.source.name && |a.Args()| == |b.Args()|
        && forall i | 0 <= i < |a.Args()| :: a.Args()[i].shape == b.Args()[i].shape
      else !a.Keyed() && !b.Keyed() && a.name == b.name
  {
    if a.Keyed() && b.Keyed() {
      if a.shape == b.shape {
        forall i | 0 <= i < |a.Args()| ensures a.Args()[i].shape == b.Args()[i].shape {
          assert Shapes(a.Args())[i] == Shapes(b.Args())[i];
        }
      } else if |a.Args()| == |b.Args()| && forall i | 0 <= i < |a.Args()| :: a.Args()[i].shape == b.Args()[i].shape {
        assert Shapes(a.Args()) == Shapes(b.Args());
      }
    }
  }

  /** The 32-bit polynomial hash of a template UUID and argument UUIDs. */
  function HashOf(template: nat, args: seq<nat>): nat {
    if args == [] then (31 + template) % 0x1_0000_0000
    else (31 * HashOf(template, args[..|args| - 1]) + args[|args| - 1]) % 0x1_0000_0000
  }

  class Desc {
    const template: Template
    const args: seq<TypeInfo>
    const hash: nat
    var typeInfo: TypeInfo?

    ghost const shape: Shape

    constructor (template: Template, args: seq<TypeInfo>, hash: nat)
      ensures this.template == template && this.args == args && this.hash == hash && typeInfo == null
      ensures shape == Inst(template.name, Shapes(args))
    {
      this.template := template;
      this.args := args;
      this.hash := hash;
      typeInfo := null;
      shape := Inst(template.name, Shapes(args));
    }
  }

  type Buckets = seq<map<nat, seq<Desc>>>

  /** The chain of descriptors with hash `h`. */
  function Chain(b: Buckets, h: nat): seq<Desc>
    requires |b| == BUCKETS
  {
    if h in b[h % BUCKETS] then b[h % BUCKETS][h] else []
  }

  // ---- the state -------------------------------------------------------------------------------

  /** Everything the manager and the objects it knows hold: `ttu`, `tiu` are the UUID fields of the
      templates and type infos brought by images, `held` the type info of every descriptor. The last
      four fields say what the UUIDs mean: `canon` and `shapes` relate structural types and UUIDs,
      `names` gives the name of a template UUID, `descOf` the descriptor of a structural type. */
  datatype State = State(
    ttMax: nat, tiMax: nat, typeTemplates: map<string, Template>, nonGeneric: map<string, TypeInfo>,
    buckets: Buckets, registered: set<TypeInfo>,
    ttu: map<Template, nat>, tiu: map<TypeInfo, nat>, held: map<Desc, TypeInfo?>,
    canon: map<Shape, nat>, shapes: map<nat, Shape>, names: map<nat, string>, descOf: map<Shape, Desc>)
  {
    ghost predicate WorldOk() {
      && registered <= tiu.Keys
      && (forall t <- tiu :: t.Shaped())
      && (forall t <- tiu :: t.Keyed() ==>
            t.source in ttu && forall i :: 0 <= i < |t.Args()| ==> t.Args()[i] in tiu)
    }

    ghost predicate TemplatesOk() {
      && 1 <= ttMax
      && (forall n <- typeTemplates :: typeTemplates[n] in ttu && typeTemplates[n].name == n)
      && (forall n <- typeTemplates :: 0 < ttu[typeTemplates[n]] < ttMax)
      && (forall t <- ttu :: ttu[t] != 0 ==> t.name in typeTemplates && ttu[t] == ttu[typeTemplates[t.name]])
      && (forall t <- ttu :: ttu[t] != 0 ==> ttu[t] in names && names[ttu[t]] == t.name)
    }

    ghost predicate CanonOk() {
      && 1 <= tiMax
      && (forall s <- canon :: 0 < canon[s] < tiMax && canon[s] in shapes && shapes[canon[s]] == s)
      && (forall t <- tiu :: tiu[t] != 0 ==> t.shape in canon && canon[t.shape] == tiu[t])
      && (forall t <- registered :: t in tiu ==> tiu[t] != 0)
    }

    ghost predicate NamesOk() {
      && (forall n <- nonGeneric :: nonGeneric[n] in tiu && tiu[nonGeneric[n]] != 0 && nonGeneric[n].shape == Named(n))
      && (forall s <- canon :: s.Named? ==> s.name in nonGeneric)
    }

    ghost function Uuids(ts: seq<TypeInfo>): (r: seq<nat>)
      requires forall i :: 0 <= i < |ts| ==> ts[i] in tiu
      ensures |r| == |ts|
    {
      seq(|ts|, i requires 0 <= i < |ts| => tiu[ts[i]])
    }

    /** A key all of whose parts have UUIDs. */
    ghost predicate Numbered(tt: Template, args: seq<TypeInfo>) {
      && tt in ttu && ttu[tt] != 0
      && (forall i :: 0 <= i < |args| ==> args[i] in tiu)
      && (forall i :: 0 <= i < |args| ==> tiu[args[i]] != 0)
    }

    ghost predicate KeyOk(d: Desc) {
      && Numbered(d.template, d.args)
      && d.shape == Inst(d.template.name, Shapes(d.args))
      && d.hash == HashOf(ttu[d.template], Uuids(d.args))
    }

    ghost predicate KeysOk() {
      forall d <- held :: KeyOk(d)
    }

    /** Every descriptor is in the chain of its hash, and the chains hold nothing else. */
    ghost predicate ChainsOk() {
      && |buckets| == BUCKETS
      && (forall d <- held :: d in Chain(buckets, d.hash))
      && (forall h: nat, d | d in Chain(buckets, h) :: d in held && d.hash == h)
    }

    ghost predicate HeldOk() {
      forall d <- held :: held[d] != null ==> held[d] in tiu && held[d].shape == d.shape
    }

    ghost predicate UniqueOk() {
      forall d <- held :: d.shape in descOf && descOf[d.shape] == d
    }

    /** Every numbered instantiated type has a descriptor with a numbered type info. */
    ghost predicate CoveredOk() {
      forall s <- canon :: s.Inst? ==> Holds(s)
    }

    ghost predicate DescsOk() {
      KeysOk() && ChainsOk() && HeldOk() && UniqueOk() && CoveredOk()
    }

    ghost predicate Holds(s: Shape) {
      && s in descOf && descOf[s] in held && descOf[s].shape == s
      && held[descOf[s]] != null && held[descOf[s]] in tiu && tiu[held[descOf[s]]] != 0
    }

    ghost predicate Valid() {
      WorldOk() && TemplatesOk() && CanonOk() && NamesOk() && DescsOk()
    }
  }

  /** Validity, sealed: a proof sees inside a sound state only where it opens it. */
  ghost predicate Sound(v: State) {
    forall k: nat :: Opens(k) ==> v.Valid()
  }

  lemma Open(v: State)
    requires Sound(v)
    ensures v.Valid()
  {
    assert Opens(0);
  }

  /** Nothing that has a UUID changes it, and no descriptor goes away. */
  ghost predicate Grown(v: State, w: State) {
    && v.ttu.Keys == w.ttu.Keys && v.tiu.Keys == w.tiu.Keys && v.held.Keys <= w.held.Keys
    && v.registered <= w.registered
    && (forall t <- v.ttu :: v.ttu[t] != 0 ==> w.ttu[t] == v.ttu[t])
    && (forall t <- v.tiu :: v.tiu[t] != 0 ==> w.tiu[t] == v.tiu[t])
  }

  lemma GrownTrans(u: State, v: State, w: State)
    requires Grown(u, v) && Grown(v, w)
    ensures Grown(u, w)
  {
  }

  // ---- what the UUIDs decide -------------------------------------------------------------------

  /** Registered types have equal UUIDs exactly when they are structurally equal. */
  lemma EqualUUIDs(v: State, a: TypeInfo, b: TypeInfo)
    requires v.Valid() && a in v.registered && b in v.registered
    ensures v.tiu[a] == v.tiu[b] <==> a.shape == b.shape
  {
  }

  // ---- structural equality, read off the fields ------------------------------------------------

  /** A type info that only its name tells apart: value arrays, and whatever is not generic. */
  predicate OnlyNamed(t: TypeInfo) {
    !t.generic || t.kind == VArray
  }

  /** What an instantiated type is made of: arrays and pointers of their component. */
  function Parts(t: TypeInfo): seq<TypeInfo?> {
    if t.kind == RawArray || t.kind == CPointer then [t.component] else t.typeArgs
  }

  lemma PartsKnown(v: State, t: TypeInfo)
    requires v.WorldOk() && t in v.tiu && !OnlyNamed(t)
    ensures t.source != null && t.shape == Inst(t.source.name, Shapes(t.Args())) && Parts(t) == t.Args()
    ensures forall i | 0 <= i < |Parts(t)| :: Parts(t)[i] != null && Parts(t)[i] in v.tiu && Parts(t)[i].shape < t.shape
  {
    assert t.Shaped();
    forall i | 0 <= i < |Parts(t)| ensures Parts(t)[i] in v.tiu && Parts(t)[i].shape < t.shape {
      assert t.shape.args[i] == t.Args()[i].shape;
    }
  }

  /** The same type: by name where only the name tells, otherwise by the template's name and part by part. */
  ghost predicate SameType(v: State, a: TypeInfo, b: TypeInfo)
    requires v.WorldOk() && a in v.tiu && b in v.tiu
    decreases a.shape
  {
    if OnlyNamed(a) || OnlyNamed(b) then OnlyNamed(a) && OnlyNamed(b) && a.name == b.name
    else
      PartsKnown(v, a);
      PartsKnown(v, b);
      && a.source.name == b.source.name && |Parts(a)| == |Parts(b)|
      && forall i | 0 <= i < |Parts(a)| :: SameType(v, Parts(a)[i], Parts(b)[i])
  }

  lemma NamedShape(v: State, t: TypeInfo)
    requires v.WorldOk() && t in v.tiu && OnlyNamed(t)
    ensures t.shape == Named(t.name)
  {
    assert t.Shaped();
  }

  lemma {:induction false} SameTypeIff(v: State, a: TypeInfo, b: TypeInfo)
    requires v.WorldOk() && a in v.tiu && b in v.tiu
    ensures SameType(v, a, b) <==> a.shape == b.shape
    decreases a.shape
  {
    if OnlyNamed(a) { NamedShape(v, a); }
    if OnlyNamed(b) { NamedShape(v, b); }
    if !OnlyNamed(a) { PartsKnown(v, a); }
    if !OnlyNamed(b) { PartsKnown(v, b); }
    if !OnlyNamed(a) && !OnlyNamed(b) {
      forall i | 0 <= i < |Parts(a)| && |Parts(a)| == |Parts(b)|
        ensures SameType(v, Parts(a)[i], Parts(b)[i]) <==> Shapes(a.Args())[i] == Shapes(b.Args())[i]
      {
        SameTypeIff(v, Parts(a)[i], Parts(b)[i]);
      }
      SamePartsIff(v, a, b);
    }
  }

  lemma SamePartsIff(v: State, a: TypeInfo, b: TypeInfo)
    requires v.WorldOk() && a in v.tiu && b in v.tiu && !OnlyNamed(a) && !OnlyNamed(b)
    requires a.shape == Inst(a.source.name, Shapes(a.Args())) && b.shape == Inst(b.source.name, Shapes(b.Args()))
    requires Parts(a) == a.Args() && Parts(b) == b.Args()
    requires forall i | 0 <= i < |Parts(a)| && |Parts(a)| == |Parts(b)| ::
      Parts(a)[i] in v.tiu && Parts(b)[i] in v.tiu &&
      (SameType(v, Parts(a)[i], Parts(b)[i]) <==> Shapes(a.Args())[i] == Shapes(b.Args())[i])
    ensures SameType(v, a, b) <==> a.shape == b.shape
  {
    if SameType(v, a, b) {
      assert Shapes(a.Args()) == Shapes(b.Args());
    }
  }

  /** A registered type known by name has the UUID listed under that name; any other the UUID of the type info in
      a descriptor of the same template name and the same parts. */
  ghost predicate Listed(v: State, t: TypeInfo)
    requires v.WorldOk() && t in v.tiu
  {
    if OnlyNamed(t) then
      t.name in v.nonGeneric && v.nonGeneric[t.name] in v.tiu && v.tiu[v.nonGeneric[t.name]] == v.tiu[t]
    else exists d <- v.held :: DescribedBy(v, t, d)
  }

  ghost predicate DescribedBy(v: State, t: TypeInfo, d: Desc)
    requires v.WorldOk() && t in v.tiu
  {
    && d in v.held && v.held[d] != null && v.held[d] in v.tiu && v.tiu[v.held[d]] == v.tiu[t]
    && t.source != null && d.template.name == t.source.name && |d.args| == |Parts(t)|
    && forall i | 0 <= i < |d.args| ::
      Parts(t)[i] != null && Parts(t)[i] in v.tiu && d.args[i] in v.tiu && SameType(v, d.args[i], Parts(t)[i])
  }

  lemma NumberedIsListed(v: State, t: TypeInfo)
    requires Sound(v) && t in v.tiu && v.tiu[t] != 0
    ensures v.WorldOk() && Listed(v, t)
  {
    Open(v);
    if OnlyNamed(t) {
      NamedShape(v, t);
    } else {
      PartsKnown(v, t);
      assert v.Holds(t.shape);
      HolderDescribes(v, t, v.descOf[t.shape]);
    }
  }

  lemma HolderDescribes(v: State, t: TypeInfo, d: Desc)
    requires v.Valid() && t in v.tiu && v.tiu[t] != 0 && !OnlyNamed(t) && d in v.held && d.shape == t.shape
    requires v.held[d] != null && v.held[d] in v.tiu && v.tiu[v.held[d]] != 0
    ensures DescribedBy(v, t, d)
  {
    PartsKnown(v, t);
    assert v.KeyOk(d) && v.held[d].shape == d.shape;
    forall i | 0 <= i < |d.args| ensures d.args[i] in v.tiu && SameType(v, d.args[i], Parts(t)[i]) {
      assert Shapes(d.args)[i] == Shapes(t.Args())[i];
      SameTypeIff(v, d.args[i], Parts(t)[i]);
    }
  }

  lemma EqualTemplates(v: State, a: Template, b: Template)
    requires Sound(v) && a in v.ttu && b in v.ttu && v.ttu[a] != 0 && v.ttu[b] != 0
    ensures v.ttu[a] == v.ttu[b] <==> a.name == b.name
  {
    Open(v);
  }

  /** Two numbered keys agree on their UUIDs exactly when they denote the same type. */
  lemma EqualKeys(v: State, s: Template, a: seq<TypeInfo>, t: Template, b: seq<TypeInfo>)
    requires Sound(v) && v.Numbered(s, a) && v.Numbered(t, b)
    ensures v.ttu[s] == v.ttu[t] && v.Uuids(a) == v.Uuids(b) <==>
      Inst(s.name, Shapes(a)) == Inst(t.name, Shapes(b))
  {
    Open(v);
    EqualTemplates(v, s, t);
    if v.ttu[s] == v.ttu[t] && v.Uuids(a) == v.Uuids(b) {
      forall i | 0 <= i < |a| ensures Shapes(a)[i] == Shapes(b)[i] {
        assert v.Uuids(a)[i] == v.Uuids(b)[i];
      }
      assert Shapes(a) == Shapes(b);
    }
    if Shapes(a) == Shapes(b) {
      forall i | 0 <= i < |a| ensures v.Uuids(a)[i] == v.Uuids(b)[i] {
        assert Shapes(a)[i] == Shapes(b)[i];
      }
      assert v.Uuids(a) == v.Uuids(b);
    }
  }

  lemma KeyKept(v: State, w: State, d: Desc)
    requires v.KeyOk(d) && Grown(v, w)
    ensures w.KeyOk(d)
  {
    assert v.Uuids(d.args) == w.Uuids(d.args);
  }

  // ---- steps -----------------------------------------------------------------------------------

  lemma WorldKept(v: State, w: State)
    requires v.WorldOk() && Grown(v, w) && w.registered <= w.tiu.Keys
    ensures w.WorldOk()
  {
  }

  lemma TemplatesKept(v: State, w: State)
    requires v.TemplatesOk() && w.ttMax == v.ttMax && w.typeTemplates == v.typeTemplates
    requires w.ttu == v.ttu && w.names == v.names
    ensures w.TemplatesOk()
  {
  }

  lemma ChainsKept(v: State, w: State)
    requires v.ChainsOk() && w.buckets == v.buckets && w.held.Keys == v.held.Keys
    ensures w.ChainsOk()
  {
  }

  lemma UniqueKept(v: State, w: State)
    requires v.UniqueOk() && w.held.Keys == v.held.Keys && w.descOf == v.descOf
    ensures w.UniqueOk()
  {
  }

  lemma HeldKept(v: State, w: State)
    requires v.HeldOk() && Grown(v, w) && w.held == v.held
    ensures w.HeldOk()
  {
  }

  lemma KeysKept(v: State, w: State)
    requires v.KeysOk() && Grown(v, w) && v.held.Keys == w.held.Keys
    ensures w.KeysOk()
  {
    forall d | d in w.held ensures w.KeyOk(d) { KeyKept(v, w, d); }
  }

  lemma HoldsKept(v: State, w: State, s: Shape)
    requires v.Holds(s) && Grown(v, w) && s in w.descOf && w.descOf[s] == v.descOf[s]
    requires w.held[v.descOf[s]] == v.held[v.descOf[s]]
    ensures w.Holds(s)
  {
  }

  lemma CoveredKept(v: State, w: State)
    requires v.CoveredOk() && Grown(v, w) && v.held == w.held && v.descOf == w.descOf
    requires forall s <- w.canon :: s.Inst? ==> s in v.canon
    ensures w.CoveredOk()
  {
    forall s | s in w.canon && s.Inst? ensures w.Holds(s) { HoldsKept(v, w, s); }
  }

  /** Descriptors survive any growth that leaves the table and adds no instantiated type. */
  lemma DescsKept(v: State, w: State)
    requires v.DescsOk() && Grown(v, w) && v.held == w.held && v.buckets == w.buckets && v.descOf == w.descOf
    requires forall s <- w.canon :: s.Inst? ==> s in v.canon
    ensures w.DescsOk()
  {
    KeysKept(v, w);
    CoveredKept(v, w);
    ChainsKept(v, w);
    HeldKept(v, w);
    UniqueKept(v, w);
  }

  lemma TemplateGrown(v: State, w: State)
    requires Sound(v) && Grown(v, w) && w.TemplatesOk()
    requires w == v.(ttMax := w.ttMax, typeTemplates := w.typeTemplates, ttu := w.ttu, names := w.names)
    ensures Sound(w)
  {
    Open(v);
    assert w.WorldOk();
    assert w.CanonOk();
    assert w.NamesOk();
    DescsKept(v, w);
  }

  lemma SharedTemplates(v: State, w: State, tt: Template)
    requires v.TemplatesOk() && tt in v.ttu && v.ttu[tt] == 0 && tt.name in v.typeTemplates
    requires w == v.(ttu := v.ttu[tt := v.ttu[v.typeTemplates[tt.name]]])
    ensures w.TemplatesOk() && Grown(v, w)
  {
  }

  /** A copy of a known template takes over its UUID. */
  lemma ShareTemplate(v: State, w: State, tt: Template)
    requires Sound(v) && tt in v.ttu && v.ttu[tt] == 0 && tt.name in v.typeTemplates
    requires v.typeTemplates[tt.name] in v.ttu && w == v.(ttu := v.ttu[tt := v.ttu[v.typeTemplates[tt.name]]])
    ensures Sound(w) && Grown(v, w) && w.ttu[tt] != 0
  {
    Open(v);
    SharedTemplates(v, w, tt);
    TemplateGrown(v, w);
  }

  /** `tt` gets the next template UUID under its name. */
  ghost predicate Adds(v: State, w: State, tt: Template) {
    && tt in v.ttu && v.ttu[tt] == 0 && tt.name !in v.typeTemplates
    && w == v.(ttu := v.ttu[tt := v.ttMax], ttMax := v.ttMax + 1,
               typeTemplates := v.typeTemplates[tt.name := tt], names := v.names[v.ttMax := tt.name])
  }

  lemma AddsGrown(v: State, w: State, tt: Template)
    requires Adds(v, w, tt)
    ensures Grown(v, w)
  {
  }

  lemma AddedTemplates(v: State, w: State, tt: Template)
    requires v.TemplatesOk() && Adds(v, w, tt)
    ensures w.TemplatesOk()
  {
    forall n | n in w.typeTemplates ensures w.typeTemplates[n] in w.ttu && w.typeTemplates[n].name == n {
    }
    forall n | n in w.typeTemplates ensures 0 < w.ttu[w.typeTemplates[n]] < w.ttMax {
    }
    forall t | t in w.ttu && w.ttu[t] != 0
      ensures t.name in w.typeTemplates && w.ttu[t] == w.ttu[w.typeTemplates[t.name]] && w.ttu[t] in w.names
      ensures w.names[w.ttu[t]] == t.name
    {
      if t != tt {
        assert t.name in v.typeTemplates && t.name != tt.name;
      }
    }
  }

  /** The first template of a name gets a new UUID. */
  lemma AddTemplate(v: State, w: State, tt: Template)
    requires Sound(v) && Adds(v, w, tt)
    ensures Sound(w) && Grown(v, w) && w.ttu[tt] != 0
  {
    Open(v);
    AddsGrown(v, w, tt);
    AddedTemplates(v, w, tt);
    TemplateGrown(v, w);
  }

  lemma ShareCanon(v: State, w: State, ti: TypeInfo)
    requires v.CanonOk() && ti in v.tiu && v.tiu[ti] == 0 && ti.shape in v.canon
    requires w.tiu == v.tiu[ti := v.canon[ti.shape]] && w.registered == v.registered + {ti}
    requires w.canon == v.canon && w.shapes == v.shapes && w.tiMax == v.tiMax
    ensures w.CanonOk() && w.tiu.Keys == v.tiu.Keys
  {
  }

  lemma NewCanon(v: State, w: State, ti: TypeInfo)
    requires v.CanonOk() && ti in v.tiu && v.tiu[ti] == 0 && ti.shape !in v.canon
    requires w.tiMax == v.tiMax + 1 && w.canon == v.canon[ti.shape := v.tiMax]
    requires w.shapes == v.shapes[v.tiMax := ti.shape]
    requires w.tiu == v.tiu[ti := v.tiMax] && w.registered == v.registered + {ti}
    ensures w.CanonOk()
  {
  }

  /** `ti` gets the next UUID, and nothing else about the known types changes. */
  ghost predicate Numbers(v: State, w: State, ti: TypeInfo) {
    && ti in v.tiu && v.tiu[ti] == 0 && w.tiMax == v.tiMax + 1
    && w.tiu == v.tiu[ti := v.tiMax] && w.registered == v.registered + {ti}
    && w.canon == v.canon[ti.shape := v.tiMax] && w.shapes == v.shapes[v.tiMax := ti.shape]
    && w.ttMax == v.ttMax && w.typeTemplates == v.typeTemplates && w.ttu == v.ttu && w.names == v.names
    && w.buckets == v.buckets && w.descOf == v.descOf
  }

  lemma NumbersFacts(v: State, w: State, ti: TypeInfo)
    requires Numbers(v, w, ti) && v.held.Keys == w.held.Keys && v.tiMax != 0
    ensures Grown(v, w) && w.canon.Keys == v.canon.Keys + {ti.shape} && w.tiu[ti] != 0
  {
  }

  lemma NumbersWorld(v: State, w: State, ti: TypeInfo)
    requires Numbers(v, w, ti) && v.WorldOk() && v.TemplatesOk() && v.CanonOk() && ti.shape !in v.canon
    requires Grown(v, w)
    ensures w.WorldOk() && w.TemplatesOk() && w.CanonOk()
  {
    WorldKept(v, w);
    TemplatesKept(v, w);
    NewCanon(v, w, ti);
  }

  /** A copy of a known type takes over its UUID. */
  lemma ShareType(v: State, w: State, ti: TypeInfo)
    requires Sound(v) && ti in v.tiu && v.tiu[ti] == 0 && ti.shape in v.canon
    requires w == v.(tiu := v.tiu[ti := v.canon[ti.shape]], registered := v.registered + {ti})
    ensures Sound(w) && Grown(v, w)
  {
    Open(v);
    ShareCanon(v, w, ti);
    WorldKept(v, w);
    TemplatesKept(v, w);
    assert w.NamesOk();
    DescsKept(v, w);
  }

  /** The first copy of a named type gets a new UUID. */
  lemma NewNamed(v: State, w: State, ti: TypeInfo)
    requires Sound(v) && Numbers(v, w, ti) && !ti.Keyed() && ti.name !in v.nonGeneric
    requires w.nonGeneric == v.nonGeneric[ti.name := ti] && w.held == v.held
    ensures Sound(w) && Grown(v, w)
  {
    Open(v);
    assert ti.shape == Named(ti.name) by { assert ti.Shaped(); }
    NumbersFacts(v, w, ti);
    NumbersWorld(v, w, ti);
    AddedName(v, w, ti);
    DescsKept(v, w);
  }

  lemma AddedName(v: State, w: State, ti: TypeInfo)
    requires v.NamesOk() && Grown(v, w) && ti in v.tiu && ti.shape == Named(ti.name) && w.tiu[ti] != 0
    requires w.nonGeneric == v.nonGeneric[ti.name := ti] && w.canon.Keys == v.canon.Keys + {ti.shape}
    ensures w.NamesOk()
  {
  }

  /** A descriptor whose type info has no UUID belongs to a type that has none. */
  lemma NotYetCanon(v: State, d: Desc)
    requires v.UniqueOk() && v.CoveredOk() && v.KeyOk(d)
    requires d in v.held && (v.held[d] == null || v.held[d] !in v.tiu || v.tiu[v.held[d]] == 0)
    ensures d.shape !in v.canon
  {
    assert !v.Holds(d.shape);
  }

  /** The first copy of an instantiated type gets a new UUID and becomes its descriptor's type info. */
  lemma NewGeneric(v: State, w: State, ti: TypeInfo, d: Desc)
    requires Sound(v) && Numbers(v, w, ti) && w.nonGeneric == v.nonGeneric && w.held == v.held[d := ti]
    requires d in v.held && d.shape == ti.shape
    requires v.held[d] == null || v.held[d] !in v.tiu || v.tiu[v.held[d]] == 0
    ensures Sound(w) && Grown(v, w)
  {
    FirstOfDesc(v, d);
    assert v.tiMax != 0 by { Open(v); }
    NumbersFacts(v, w, ti);
    assert w.WorldOk() && w.TemplatesOk() && w.CanonOk() by { Open(v); NumbersWorld(v, w, ti); }
    assert w.NamesOk() by { Open(v); NoAddedName(v, w, ti.shape); }
    assert w.DescsOk() by { Open(v); HeldGeneric(v, w, ti, d); }
  }

  lemma FirstOfDesc(v: State, d: Desc)
    requires Sound(v) && d in v.held && (v.held[d] == null || v.held[d] !in v.tiu || v.tiu[v.held[d]] == 0)
    ensures d.shape !in v.canon && d.shape.Inst?
  {
    Open(v);
    assert v.KeyOk(d);
    NotYetCanon(v, d);
  }

  lemma NoAddedName(v: State, w: State, s: Shape)
    requires v.NamesOk() && Grown(v, w) && s.Inst?
    requires w.nonGeneric == v.nonGeneric && w.canon.Keys == v.canon.Keys + {s}
    ensures w.NamesOk()
  {
  }

  lemma HeldGeneric(v: State, w: State, ti: TypeInfo, d: Desc)
    requires v.DescsOk() && Grown(v, w) && d in v.held && d.shape == ti.shape && d.shape !in v.canon
    requires w.held == v.held[d := ti] && v.buckets == w.buckets && w.canon.Keys == v.canon.Keys + {d.shape}
    requires ti in w.tiu && w.tiu[ti] != 0 && w.descOf == v.descOf
    ensures w.DescsOk()
  {
    assert w.held.Keys == v.held.Keys;
    KeysKept(v, w);
    HeldCovers(v, w, ti, d);
    ChainsKept(v, w);
    HeldUpdated(v, w, ti, d);
    UniqueKept(v, w);
  }

  lemma HeldUpdated(v: State, w: State, ti: TypeInfo, d: Desc)
    requires v.HeldOk() && Grown(v, w) && d.shape == ti.shape && w.held == v.held[d := ti] && ti in w.tiu
    ensures w.HeldOk()
  {
  }

  lemma HeldCovers(v: State, w: State, ti: TypeInfo, d: Desc)
    requires v.CoveredOk() && v.UniqueOk() && Grown(v, w) && d in v.held && d.shape !in v.canon
    requires w.held == v.held[d := ti] && w.canon.Keys == v.canon.Keys + {d.shape} && w.descOf == v.descOf
    requires ti in w.tiu && w.tiu[ti] != 0
    ensures w.CoveredOk()
  {
    forall s | s in w.canon && s.Inst? ensures w.Holds(s) {
      if s != d.shape {
        HoldsKept(v, w, s);
      }
    }
  }

  // ---- the descriptor table --------------------------------------------------------------------

  function Pushed(b: Buckets, d: Desc): Buckets
    requires |b| == BUCKETS
  {
    var chains: map<nat, seq<Desc>> := b[d.hash % BUCKETS][d.hash := Chain(b, d.hash) + [d]];
    b[d.hash % BUCKETS := chains]
  }

  lemma PushedChain(b: Buckets, d: Desc, h: nat)
    requires |b| == BUCKETS
    ensures Chain(Pushed(b, d), h) == if h == d.hash then Chain(b, h) + [d] else Chain(b, h)
  {
  }

  /** `d` joins the chain of its hash, with no type info yet. */
  ghost predicate Pushes(v: State, w: State, d: Desc) {
    && |v.buckets| == BUCKETS && d !in v.held
    && w == v.(buckets := Pushed(v.buckets, d), held := v.held[d := null], descOf := v.descOf[d.shape := d])
  }

  lemma NewDesc(v: State, w: State, d: Desc)
    requires Sound(v) && Pushes(v, w, d) && v.KeyOk(d) && forall e <- v.held :: e.shape != d.shape
    ensures Sound(w) && Grown(v, w)
  {
    Open(v);
    assert Grown(v, w);
    WorldKept(v, w);
    TemplatesKept(v, w);
    assert w.CanonOk() && w.NamesOk();
    PushedChains(v, w, d);
    PushedUnique(v, w, d);
    PushedKeys(v, w, d);
  }

  lemma PushedKeys(v: State, w: State, d: Desc)
    requires Pushes(v, w, d) && Grown(v, w) && v.KeysOk() && v.CoveredOk() && v.KeyOk(d)
    requires forall e <- v.held :: e.shape != d.shape
    ensures w.KeysOk() && w.CoveredOk()
  {
    forall e | e in w.held ensures w.KeyOk(e) { KeyKept(v, w, e); }
    forall s | s in w.canon && s.Inst? ensures w.Holds(s) { HoldsKept(v, w, s); }
  }

  lemma PushedUnique(v: State, w: State, d: Desc)
    requires Pushes(v, w, d) && v.UniqueOk() && v.HeldOk() && forall e <- v.held :: e.shape != d.shape
    ensures w.UniqueOk() && w.HeldOk()
  {
  }

  lemma PushedChains(v: State, w: State, d: Desc)
    requires Pushes(v, w, d) && v.ChainsOk()
    ensures w.ChainsOk()
  {
    forall e | e in w.held ensures e in Chain(w.buckets, e.hash) {
      PushedChain(v.buckets, d, e.hash);
    }
    forall h: nat, e | e in Chain(w.buckets, h) ensures e in w.held && e.hash == h {
      PushedChain(v.buckets, d, h);
    }
  }

  lemma RegisteredCanon(v: State, w: State, ti: TypeInfo)
    requires v.CanonOk() && ti in v.tiu && v.tiu[ti] != 0 && w == v.(registered := v.registered + {ti})
    ensures w.CanonOk()
  {
  }

  lemma RegisteredDescs(v: State, w: State)
    requires Sound(v) && w == v.(registered := w.registered)
    ensures w.DescsOk() && w.TemplatesOk() && w.NamesOk()
  {
    Open(v);
    assert w.UniqueOk() && w.HeldOk() && w.ChainsOk();
    SameKeys(v, w);
  }

  lemma SameKeys(v: State, w: State)
    requires v.KeysOk() && v.CoveredOk() && w == v.(registered := w.registered)
    ensures w.KeysOk() && w.CoveredOk()
  {
    forall d | d in w.held ensures w.KeyOk(d) {
      assert v.KeyOk(d) && v.Uuids(d.args) == w.Uuids(d.args);
    }
    forall s | s in w.canon && s.Inst? ensures w.Holds(s) { assert v.Holds(s); }
  }

  lemma Register(v: State, w: State, ti: TypeInfo)
    requires Sound(v) && ti in v.tiu && v.tiu[ti] != 0 && w == v.(registered := v.registered + {ti})
    ensures Sound(w) && Grown(v, w)
  {
    assert w.WorldOk() && w.CanonOk() by { Open(v); RegisteredCanon(v, w, ti); }
    RegisteredDescs(v, w);
  }

  // ---- loading and creating --------------------------------------------------------------------

  /** An image brings a type info whose template and arguments are known. */
  ghost predicate Brings(v: State, w: State, ti: TypeInfo) {
    && ti !in v.tiu && ti.Shaped()
    && (ti.Keyed() ==> ti.source in v.ttu && forall i :: 0 <= i < |ti.Args()| ==> ti.Args()[i] in v.tiu)
    && w == v.(tiu := v.tiu[ti := 0])
  }

  lemma AddedZero(v: State, w: State, tt: Template)
    requires v.TemplatesOk() && tt !in v.ttu && w == v.(ttu := v.ttu[tt := 0])
    ensures w.TemplatesOk()
  {
  }

  lemma LoadedTemplate(v: State, w: State, tt: Template)
    requires Sound(v) && tt !in v.ttu && w == v.(ttu := v.ttu[tt := 0])
    ensures Sound(w)
  {
    assert w.WorldOk() by { Open(v); }
    assert w.TemplatesOk() by { Open(v); AddedZero(v, w, tt); }
    assert w.CanonOk() && w.NamesOk() by { Open(v); }
    assert w.DescsOk() by { Open(v); LoadedDescs(v, w); }
  }

  /** A descriptor takes a type info of its own type that has no UUID yet. */
  lemma HoldNew(v: State, w: State, d: Desc, ti: TypeInfo)
    requires Sound(v) && d in v.held && ti in v.tiu && ti.shape == d.shape
    requires v.held[d] == null || v.held[d] !in v.tiu || v.tiu[v.held[d]] == 0
    requires w == v.(held := v.held[d := ti])
    ensures Sound(w)
  {
    FirstOfDesc(v, d);
    assert w.WorldOk() && w.CanonOk() && w.NamesOk() by { Open(v); }
    assert w.TemplatesOk() by { Open(v); TemplatesKept(v, w); }
    assert w.DescsOk() by { Open(v); HeldNew(v, w, d, ti); }
  }

  lemma HeldNew(v: State, w: State, d: Desc, ti: TypeInfo)
    requires v.DescsOk() && d in v.held && d.shape !in v.canon && ti in v.tiu && ti.shape == d.shape
    requires w == v.(held := v.held[d := ti])
    ensures w.DescsOk()
  {
    assert Grown(v, w);
    KeysKept(v, w);
    ChainsKept(v, w);
    UniqueKept(v, w);
    HeldUpdated(v, w, ti, d);
    HoldNewCovers(v, w, d, ti);
  }

  lemma HoldNewCovers(v: State, w: State, d: Desc, ti: TypeInfo)
    requires v.CoveredOk() && d in v.held && d.shape !in v.canon && w == v.(held := v.held[d := ti])
    ensures w.CoveredOk()
  {
    forall s | s in w.canon && s.Inst? ensures w.Holds(s) { assert v.Holds(s); }
  }

  lemma LoadedWorld(v: State, w: State, ti: TypeInfo)
    requires v.WorldOk() && Brings(v, w, ti)
    ensures w.WorldOk()
  {
  }

  lemma LoadedCanon(v: State, w: State, ti: TypeInfo)
    requires v.CanonOk() && v.NamesOk() && v.registered <= v.tiu.Keys && Brings(v, w, ti)
    ensures w.CanonOk() && w.NamesOk()
  {
  }

  lemma LoadType(v: State, w: State, ti: TypeInfo)
    requires Sound(v) && Brings(v, w, ti)
    ensures Sound(w)
  {
    Open(v);
    LoadedWorld(v, w, ti);
    LoadedCanon(v, w, ti);
    TemplatesKept(v, w);
    LoadedDescs(v, w);
  }

  lemma LoadedDescs(v: State, w: State)
    requires v.DescsOk() && v.held == w.held && v.buckets == w.buckets && v.canon == w.canon && v.descOf == w.descOf
    requires forall t <- v.ttu :: t in w.ttu && w.ttu[t] == v.ttu[t]
    requires forall t <- v.tiu :: t in w.tiu && w.tiu[t] == v.tiu[t]
    ensures w.DescsOk()
  {
    forall d | d in w.held ensures w.KeyOk(d) {
      assert v.KeyOk(d);
      assert v.Uuids(d.args) == w.Uuids(d.args);
    }
    forall s | s in w.canon && s.Inst? ensures w.Holds(s) {
      assert v.Holds(s);
    }
    ChainsKept(v, w);
    UniqueKept(v, w);
  }

  // ---- the manager -----------------------------------------------------------------------------

  /** The stored descriptor and the key agree on template and argument UUIDs. */
  ghost predicate SameKey(v: State, d: Desc, tt: Template, args: seq<TypeInfo>)
    requires v.Numbered(d.template, d.args) && v.Numbered(tt, args)
  {
    v.ttu[d.template] == v.ttu[tt] && v.Uuids(d.args) == v.Uuids(args)
  }

  /** The first `n` type infos carry exactly these UUIDs. */
  ghost predicate Has(v: State, ts: seq<TypeInfo>, uuids: seq<nat>, n: nat) {
    && n == |uuids| <= |ts|
    && forall i :: 0 <= i < n ==> ts[i] in v.tiu && v.tiu[ts[i]] == uuids[i] != 0
  }

  lemma HasNext(v: State, w: State, ts: seq<TypeInfo>, uuids: seq<nat>, n: nat)
    requires Has(v, ts, uuids, n) && Grown(v, w) && n < |ts| && ts[n] in w.tiu && w.tiu[ts[n]] != 0
    ensures Has(w, ts, uuids + [w.tiu[ts[n]]], n + 1)
  {
  }

  lemma HasAll(v: State, ts: seq<TypeInfo>, uuids: seq<nat>)
    requires Has(v, ts, uuids, |ts|)
    ensures (forall i :: 0 <= i < |ts| ==> ts[i] in v.tiu && v.tiu[ts[i]] != 0) && v.Uuids(ts) == uuids
  {
  }

  lemma HashNext(u: nat, uuids: seq<nat>, next: nat)
    ensures HashOf(u, uuids + [next]) == (31 * HashOf(u, uuids) + next) % 0x1_0000_0000
  {
    assert (uuids + [next])[..|uuids|] == uuids;
  }

  class Manager {
    var ttMaxUUID: nat
    var tiMaxUUID: nat
    var typeTemplates: map<string, Template>
    var nonGeneric: map<string, TypeInfo>
    var buckets: Buckets
    var registered: set<TypeInfo>

    ghost var state: State

    /** The ghost state is what the manager and the objects hold. */
    ghost predicate Reflects()
      reads this, state.ttu.Keys, state.tiu.Keys, state.held.Keys
    {
      && state.ttMax == ttMaxUUID && state.tiMax == tiMaxUUID
      && state.typeTemplates == typeTemplates && state.nonGeneric == nonGeneric
      && state.buckets == buckets && state.registered == registered
      && (forall t <- state.ttu :: state.ttu[t] == t.uuid)
      && (forall t <- state.tiu :: state.tiu[t] == t.uuid)
      && (forall d <- state.held :: state.held[d] == d.typeInfo)
    }

    ghost predicate Valid()
      reads this, state.ttu.Keys, state.tiu.Keys, state.held.Keys
    {
      Sound(state) && Reflects()
    }

    /** Registered types have equal UUIDs exactly when they are structurally equal. */
    lemma SameUUID(a: TypeInfo, b: TypeInfo)
      requires Valid() && a in registered && b in registered
      ensures a.uuid == b.uuid <==> a.shape == b.shape
      ensures state.WorldOk() && a in state.tiu && b in state.tiu && (a.uuid == b.uuid <==> SameType(state, a, b))
    {
      Open(state);
      EqualUUIDs(state, a, b);
      SameTypeIff(state, a, b);
    }

    constructor ()
      ensures Valid() && state.ttu == map[] && state.tiu == map[] && state.held == map[]
    {
      ttMaxUUID, tiMaxUUID := 1, 1;
      typeTemplates, nonGeneric := map[], map[];
      buckets := seq(BUCKETS, _ => map[]);
      registered := {};
      state := State(1, 1, map[], map[], seq(BUCKETS, _ => map[]), {}, map[], map[], map[], map[],
                     map[], map[], map[]);
    }

    /** An image brings a template. */
    method LoadTemplate(tt: Template)
      requires Valid() && tt !in state.ttu && tt.uuid == 0
      modifies this`state
      ensures Valid() && state == old(state).(ttu := old(state).ttu[tt := 0])
    {
      state := state.(ttu := state.ttu[tt := 0]);
      LoadedTemplate(old(state), state, tt);
    }

    /** An image brings a type info. */
    method LoadTypeInfo(ti: TypeInfo)
      requires Valid() && ti !in state.tiu && ti.uuid == 0 && ti.Shaped()
      requires ti.Keyed() ==> ti.source in state.ttu && forall i :: 0 <= i < |ti.Args()| ==> ti.Args()[i] in state.tiu
      modifies this`state
      ensures Valid() && state == old(state).(tiu := old(state).tiu[ti := 0])
    {
      state := state.(tiu := state.tiu[ti := 0]);
      LoadType(old(state), state, ti);
    }

    /** The runtime instantiates a template itself: a new type info, not numbered yet, is put into its
        descriptor. */
    method Instantiate(d: Desc, name: string, kind: Kind) returns (ti: TypeInfo)
      requires Valid() && d in state.held && d.typeInfo == null
      requires kind != VArray && (kind == RawArray || kind == CPointer ==> |d.args| == 1)
      modifies this`state, d
      ensures Valid() && fresh(ti) && ti.shape == d.shape && ti.uuid == 0
      ensures state == old(state).(tiu := old(state).tiu[ti := 0], held := old(state).held[d := ti])
    {
      ti := new TypeInfo.Instance(name, kind, d.template, d.args);
      assert state.KeyOk(d) by { Open(state); }
      LoadTypeInfo(ti);
      ghost var v := state;
      SetHeld(d, ti);
      HoldNew(v, state, d, ti);
    }

    method SetTemplateUUID(tt: Template, u: nat)
      requires Reflects() && tt in state.ttu
      modifies this`state, tt
      ensures Reflects() && state == old(state).(ttu := old(state).ttu[tt := u])
    {
      tt.uuid := u;
      state := state.(ttu := state.ttu[tt := u]);
    }

    method ShareTemplateUUID(tt: Template)
      requires Valid() && tt in state.ttu && state.ttu[tt] == 0 && tt.name in state.typeTemplates
      modifies this`state, tt
      ensures Valid() && Grown(old(state), state) && state.ttu[tt] != 0 && state.held == old(state).held
    {
      assert typeTemplates[tt.name] in state.ttu by { Open(state); }
      SetTemplateUUID(tt, typeTemplates[tt.name].uuid);
      ShareTemplate(old(state), state, tt);
    }

    method AdvanceTemplates(tt: Template)
      requires Reflects()
      modifies this`state, this`ttMaxUUID, this`typeTemplates
      ensures Reflects() && state == old(state).(ttMax := old(state).ttMax + 1,
        typeTemplates := old(state).typeTemplates[tt.name := tt],
          names := old(state).names[old(state).ttMax := tt.name])
    {
      typeTemplates := typeTemplates[tt.name := tt];
      ttMaxUUID := ttMaxUUID + 1;
      state := state.(ttMax := ttMaxUUID, typeTemplates := typeTemplates, names := state.names[state.ttMax := tt.name]);
    }

    method NewTemplateUUID(tt: Template)
      requires Valid() && tt in state.ttu && state.ttu[tt] == 0 && tt.name !in state.typeTemplates
      modifies this`state, this`ttMaxUUID, this`typeTemplates, tt
      ensures Valid() && Grown(old(state), state) && state.ttu[tt] != 0 && state.held == old(state).held
    {
      SetTemplateUUID(tt, ttMaxUUID);
      AdvanceTemplates(tt);
      AddTemplate(old(state), state, tt);
    }

    method TemplateUUID(tt: Template) returns (u: nat)
      requires Valid() && tt in state.ttu
      modifies this`state, this`ttMaxUUID, this`typeTemplates, tt
      ensures Valid() && Grown(old(state), state) && u == state.ttu[tt] != 0 && state.held == old(state).held
    {
      if tt.uuid != 0 {
        return tt.uuid;
      }
      if tt.name in typeTemplates {
        ShareTemplateUUID(tt);
      } else {
        NewTemplateUUID(tt);
      }
      return tt.uuid;
    }

    /** Field-by-field comparison of a stored descriptor with a key. */
    method Same(d: Desc, tt: Template, args: seq<TypeInfo>, hash: nat) returns (same: bool)
      requires Reflects() && state.KeyOk(d) && state.Numbered(tt, args)
      requires hash == HashOf(state.ttu[tt], state.Uuids(args))
      ensures same <==> SameKey(state, d, tt, args)
    {
      if d.hash != hash || |d.args| != |args| {
        return false;
      }
      if d.template != tt && d.template.uuid != tt.uuid {
        return false;
      }
      for i := 0 to |args|
        invariant forall j :: 0 <= j < i ==> d.args[j].uuid == args[j].uuid
      {
        if d.args[i].uuid != args[i].uuid {
          assert state.Uuids(d.args)[i] != state.Uuids(args)[i];
          return false;
        }
      }
      assert state.Uuids(d.args) == state.Uuids(args);
      return true;
    }

    /** Find the descriptor of a numbered key in the chain of its hash. */
    method Find(tt: Template, args: seq<TypeInfo>, hash: nat) returns (r: Desc?)
      requires Reflects() && state.ChainsOk() && state.KeysOk() && state.Numbered(tt, args)
      requires hash == HashOf(state.ttu[tt], state.Uuids(args))
      ensures r != null ==> r in state.held && SameKey(state, r, tt, args)
      ensures r == null ==> forall d <- state.held :: !SameKey(state, d, tt, args)
    {
      var chain := Chain(buckets, hash);
      assert forall j :: 0 <= j < |chain| ==> chain[j] in Chain(state.buckets, hash);
      for i := 0 to |chain|
        invariant forall j :: 0 <= j < |chain| ==> chain[j] in state.held && state.KeyOk(chain[j])
        invariant forall j :: 0 <= j < i ==> !SameKey(state, chain[j], tt, args)
      {
        var same := Same(chain[i], tt, args, hash);
        if same {
          return chain[i];
        }
      }
      return null;
    }
  
    method Lookup(tt: Template, args: seq<TypeInfo>, hash: nat) returns (r: Desc?)
      requires Valid() && state.Numbered(tt, args) && hash == HashOf(state.ttu[tt], state.Uuids(args))
      ensures r != null ==> r in state.held && r.shape == Inst(tt.name, Shapes(args))
      ensures r == null ==> forall d <- state.held :: d.shape != Inst(tt.name, Shapes(args))
    {
      assert state.ChainsOk() && state.KeysOk() by { Open(state); }
      r := Find(tt, args, hash);
      KeysAreShapes(state, tt, args);
    }

    /** Add a descriptor for a numbered key unless there is one by now. */
    method InsertDesc(tt: Template, args: seq<TypeInfo>, hash: nat) returns (d: Desc)
      requires Valid() && state.Numbered(tt, args) && hash == HashOf(state.ttu[tt], state.Uuids(args))
      modifies this`state, this`buckets
      ensures Valid() && Grown(old(state), state) && d in state.held && d.shape == Inst(tt.name, Shapes(args))
      ensures fresh(state.held.Keys - old(state.held.Keys))
    {
      var found := Lookup(tt, args, hash);
      if found != null {
        return found;
      }
      d := new Desc(tt, args, hash);
      assert |buckets| == BUCKETS by { Open(state); }
      Push(d);
      NewDesc(old(state), state, d);
    }

    method Push(d: Desc)
      requires Reflects() && |buckets| == BUCKETS && d !in state.held && d.typeInfo == null
      modifies this`state, this`buckets
      ensures Reflects() && Pushes(old(state), state, d)
    {
      buckets := Pushed(buckets, d);
      state := state.(buckets := buckets, held := state.held[d := null], descOf := state.descOf[d.shape := d]);
    }

    method GetOrInsert(tt: Template, args: seq<TypeInfo>, hash: nat) returns (d: Desc)
      requires Valid() && state.Numbered(tt, args) && hash == HashOf(state.ttu[tt], state.Uuids(args))
      modifies this`state, this`buckets
      ensures Valid() && Grown(old(state), state) && d in state.held && d.shape == Inst(tt.name, Shapes(args))
      ensures fresh(state.held.Keys - old(state.held.Keys))
    {
      var found := Lookup(tt, args, hash);
      if found != null {
        return found;
      }
      d := InsertDesc(tt, args, hash);
    }

    method GetTypeInfo(tt: Template, args: seq<TypeInfo>) returns (d: Desc)
      requires Valid() && tt in state.ttu && forall i :: 0 <= i < |args| ==> args[i] in state.tiu
      modifies this, state.ttu.Keys, state.tiu.Keys, state.held.Keys
      ensures Valid() && Grown(old(state), state) && d in state.held && d.shape == Inst(tt.name, Shapes(args))
      ensures fresh(state.held.Keys - old(state.held.Keys))
      decreases Inst(tt.name, Shapes(args)), 2
    {
      var hash := ComputeHash(tt, args);
      ghost var v := state;
      d := GetOrInsert(tt, args, hash);
      GrownTrans(old(state), v, state);
    }

    /** Number the template and every argument, folding their UUIDs into the hash. */
    method ComputeHash(tt: Template, args: seq<TypeInfo>) returns (hash: nat)
      requires Valid() && tt in state.ttu && forall i :: 0 <= i < |args| ==> args[i] in state.tiu
      modifies this, state.ttu.Keys, state.tiu.Keys, state.held.Keys
      ensures Valid() && Grown(old(state), state) && fresh(state.held.Keys - old(state.held.Keys))
      ensures state.Numbered(tt, args) && hash == HashOf(state.ttu[tt], state.Uuids(args))
      decreases Inst(tt.name, Shapes(args)), 1
    {
      var u := TemplateUUID(tt);
      ghost var v := state;
      ghost var uuids;
      hash, uuids := HashArgs(u, args, Inst(tt.name, Shapes(args)));
      GrownTrans(old(state), v, state);
      HasAll(state, args, uuids);
    }

    method HashArgs(u: nat, args: seq<TypeInfo>, ghost shape: Shape) returns (hash: nat, ghost uuids: seq<nat>)
      requires Valid() && (forall i :: 0 <= i < |args| ==> args[i] in state.tiu) && shape.Inst?
      requires shape.args == Shapes(args)
      modifies this, state.ttu.Keys, state.tiu.Keys, state.held.Keys
      ensures Valid() && Grown(old(state), state) && fresh(state.held.Keys - old(state.held.Keys))
      ensures Has(state, args, uuids, |args|) && hash == HashOf(u, uuids)
      decreases shape, 0
    {
      hash := (31 + u) % 0x1_0000_0000;
      uuids := [];
      for i := 0 to |args|
        invariant Valid() && Grown(old(state), state) && fresh(state.held.Keys - old(state.held.Keys))
        invariant Has(state, args, uuids, i) && hash == HashOf(u, uuids)
      {
        assert shape.args[i] == args[i].shape;
        ghost var v := state;
        hash, uuids := HashArg(args, i, u, hash, uuids);
        GrownTrans(old(state), v, state);
      }
    }

    method HashArg(args: seq<TypeInfo>, i: nat, ghost u: nat, hash: nat, ghost uuids: seq<nat>)
      returns (next: nat, ghost more: seq<nat>)
      requires Valid() && i < |args| && args[i] in state.tiu
      requires Has(state, args, uuids, i) && hash == HashOf(u, uuids)
      modifies this, state.ttu.Keys, state.tiu.Keys, state.held.Keys
      ensures Valid() && Grown(old(state), state) && fresh(state.held.Keys - old(state.held.Keys))
      ensures Has(state, args, more, i + 1) && next == HashOf(u, more)
      decreases args[i].shape, 6
    {
      var uuid := NumberArg(args[i]);
      HasNext(old(state), state, args, uuids, i);
      HashNext(u, uuids, uuid);
      next := (31 * hash + uuid) % 0x1_0000_0000;
      more := uuids + [uuid];
    }

    method NumberArg(ti: TypeInfo) returns (u: nat)
      requires Valid() && ti in state.tiu
      modifies this, state.ttu.Keys, state.tiu.Keys, state.held.Keys
      ensures Valid() && Grown(old(state), state) && fresh(state.held.Keys - old(state.held.Keys))
      ensures u == state.tiu[ti] != 0
      decreases ti.shape, 5
    {
      if ti.uuid == 0 {
        AddTypeInfo(ti);
      }
      u := ti.uuid;
      assert ti in state.registered ==> u != 0 by { Open(state); }
    }

    /** Register a type info; afterwards it has the UUID of its structural type. */
    method AddTypeInfo(ti: TypeInfo)
      requires Valid() && ti in state.tiu
      modifies this, state.ttu.Keys, state.tiu.Keys, state.held.Keys
      ensures Valid() && Grown(old(state), state) && ti in state.registered
      ensures fresh(state.held.Keys - old(state.held.Keys))
      ensures state.WorldOk() && ti in state.tiu && Listed(state, ti)
      decreases ti.shape, 4
    {
      AddOnce(ti);
      assert ti.uuid != 0 by { Open(state); }
      NumberedIsListed(state, ti);
    }

    method AddOnce(ti: TypeInfo)
      requires Valid() && ti in state.tiu
      modifies this, state.ttu.Keys, state.tiu.Keys, state.held.Keys
      ensures Valid() && Grown(old(state), state) && ti in state.registered
      ensures fresh(state.held.Keys - old(state.held.Keys))
      decreases ti.shape, 3
    {
      if ti.uuid != 0 {
        Registered(ti);
        return;
      }
      Known(state, ti);
      if ti.Keyed() {
        var d := GetTypeInfo(ti.source, ti.Args());
        ghost var v := state;
        AddGeneric(ti, d);
        GrownTrans(old(state), v, state);
      } else {
        AddNamed(ti);
      }
    }

    method Registered(ti: TypeInfo)
      requires Valid() && ti in state.tiu && state.tiu[ti] != 0
      modifies this`state, this`registered
      ensures Valid() && Grown(old(state), state) && ti in state.registered && state.held == old(state.held)
    {
      registered := registered + {ti};
      state := state.(registered := registered);
      Register(old(state), state, ti);
    }

    /** The locked section for instantiated types. */
    method AddGeneric(ti: TypeInfo, d: Desc)
      requires Valid() && ti in state.tiu && d in state.held && d.shape == ti.shape
      modifies this, ti, d
      ensures Valid() && Grown(old(state), state) && ti in state.registered && state.held.Keys == old(state.held.Keys)
    {
      if ti.uuid != 0 {
        Registered(ti);
        return;
      }
      HeldUUID(state, d);
      if d.typeInfo != null && d.typeInfo.uuid != 0 {
        AddCopy(ti, d.typeInfo.uuid);
      } else {
        AddFirstGeneric(ti, d);
      }
    }

    /** The locked section for types known by name. */
    method AddNamed(ti: TypeInfo)
      requires Valid() && ti in state.tiu && state.tiu[ti] == 0 && OnlyNamed(ti)
      modifies this, ti
      ensures Valid() && Grown(old(state), state) && ti in state.registered && state.held == old(state.held)
      ensures ti.name in nonGeneric && nonGeneric[ti.name].uuid == ti.uuid != 0
      ensures nonGeneric == if ti.name in old(nonGeneric) then old(nonGeneric) else old(nonGeneric)[ti.name := ti]
    {
      Known(state, ti);
      if ti.name in nonGeneric {
        NamedUUID(state, ti.name);
        AddCopy(ti, nonGeneric[ti.name].uuid);
      } else {
        AddFirstNamed(ti);
      }
      assert ti.uuid != 0 by { Open(state); }
      NumberedIsListed(state, ti);
    }

    method AddCopy(ti: TypeInfo, u: nat)
      requires Valid() && ti in state.tiu && state.tiu[ti] == 0
      requires ti.shape in state.canon && u == state.canon[ti.shape]
      modifies this`state, this`registered, ti
      ensures Valid() && Grown(old(state), state) && ti in state.registered && state.held == old(state).held
    {
      Share(ti, u);
      ShareType(old(state), state, ti);
    }

    method AddFirstNamed(ti: TypeInfo)
      requires Valid() && ti in state.tiu && state.tiu[ti] == 0 && !ti.Keyed() && ti.name !in state.nonGeneric
      modifies this`state, this`registered, this`tiMaxUUID, this`nonGeneric, ti
      ensures Valid() && Grown(old(state), state) && ti in state.registered && state.held == old(state).held
      ensures nonGeneric == old(nonGeneric)[ti.name := ti]
    {
      SetNamed(ti);
      Number(ti);
      NewNamed(old(state), state, ti);
    }

    method AddFirstGeneric(ti: TypeInfo, d: Desc)
      requires Valid() && ti in state.tiu && state.tiu[ti] == 0 && d in state.held && d.shape == ti.shape
      requires state.held[d] == null || state.held[d] !in state.tiu || state.tiu[state.held[d]] == 0
      modifies this`state, this`registered, this`tiMaxUUID, ti, d
      ensures Valid() && Grown(old(state), state) && ti in state.registered && state.held.Keys == old(state).held.Keys
    {
      Number(ti);
      SetHeld(d, ti);
      NewGeneric(old(state), state, ti, d);
    }

    method Share(ti: TypeInfo, u: nat)
      requires Reflects() && ti in state.tiu
      modifies this`state, this`registered, ti
      ensures Reflects()
      ensures state == old(state).(tiu := old(state).tiu[ti := u], registered := old(state).registered + {ti})
    {
      registered := registered + {ti};
      ti.uuid := u;
      state := state.(tiu := state.tiu[ti := u], registered := registered);
    }

    /** Give `ti` the next UUID. */
    method Number(ti: TypeInfo)
      requires Reflects() && ti in state.tiu && state.tiu[ti] == 0
      modifies this`state, this`registered, this`tiMaxUUID, ti
      ensures Reflects() && Numbers(old(state), state, ti)
      ensures state.held == old(state).held && state.nonGeneric == old(state).nonGeneric
    {
      registered := registered + {ti};
      ti.uuid := tiMaxUUID;
      tiMaxUUID := tiMaxUUID + 1;
      state := state.(registered := registered, tiMax := tiMaxUUID,
                      tiu := state.tiu[ti := ti.uuid], canon := state.canon[ti.shape := ti.uuid],
                      shapes := state.shapes[ti.uuid := ti.shape]);
    }

    method SetNamed(ti: TypeInfo)
      requires Reflects()
      modifies this`state, this`nonGeneric
      ensures Reflects() && state == old(state).(nonGeneric := old(state).nonGeneric[ti.name := ti])
    {
      nonGeneric := nonGeneric[ti.name := ti];
      state := state.(nonGeneric := nonGeneric);
    }

    method SetHeld(d: Desc, ti: TypeInfo)
      requires Reflects() && d in state.held
      modifies this`state, d
      ensures Reflects() && state == old(state).(held := old(state).held[d := ti])
    {
      d.typeInfo := ti;
      state := state.(held := state.held[d := ti]);
    }
  }

  lemma Known(v: State, ti: TypeInfo)
    requires Sound(v) && ti in v.tiu
    ensures ti.Shaped()
    ensures ti.Keyed() ==> ti.source in v.ttu && forall i :: 0 <= i < |ti.Args()| ==> ti.Args()[i] in v.tiu
  {
    Open(v);
  }

  lemma NamedUUID(v: State, n: string)
    requires Sound(v) && n in v.nonGeneric
    ensures v.nonGeneric[n] in v.tiu && Named(n) in v.canon && v.canon[Named(n)] == v.tiu[v.nonGeneric[n]]
  {
    Open(v);
  }

  lemma HeldUUID(v: State, d: Desc)
    requires Sound(v) && d in v.held
    ensures v.held[d] != null ==> v.held[d] in v.tiu
    ensures v.held[d] != null && v.tiu[v.held[d]] != 0 ==>
      d.shape in v.canon && v.canon[d.shape] == v.tiu[v.held[d]]
  {
    Open(v);
  }

  /** For numbered keys, agreeing with a stored descriptor is denoting its type. */
  lemma KeysAreShapes(v: State, tt: Template, args: seq<TypeInfo>)
    requires Sound(v) && v.KeysOk() && v.Numbered(tt, args)
    ensures forall d <- v.held :: SameKey(v, d, tt, args) <==> d.shape == Inst(tt.name, Shapes(args))
  {
    forall d | d in v.held ensures SameKey(v, d, tt, args) <==> d.shape == Inst(tt.name, Shapes(args)) {
      assert v.KeyOk(d);
      EqualKeys(v, d.template, d.args, tt, args);
    }
  }
}
