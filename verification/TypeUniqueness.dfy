/** When a structural type keeps one UUID while many threads register and create types
    (runtime/src/TypeInfoManager.cpp): exactly when no created type info is stored over one that has a UUID. */
module TypeUniqueness {

  import opened Common
  import opened TypeRegistry
  import opened TypeRegistryProtocol

  /** A descriptor in hand is the one of the key's type. */
  ghost predicate Typed(f: Frame) {
    f.Found? || f.Creating? ==> f.d.shape == ShapeOf(f.key)
  }

  ghost predicate AllTyped(fs: seq<Frame>) {
    forall f <- fs :: Typed(f)
  }

  /** The registry is sound, and so is what the calls under way hold. */
  ghost predicate Unique(c: Config) {
    Inv(c) && Sound(c.reg) && forall t <- c.calls :: AllTyped(c.calls[t])
  }

  // ---- sections keep the registry sound --------------------------------------------------------

  lemma LockGenericSound(v: State, ti: TypeInfo, d: Desc)
    requires Sound(v) && ti in v.tiu && d in v.held && d.shape == ti.shape
    ensures Sound(LockGeneric(v, ti, d))
  {
    HeldUUID(v, d);
    if v.tiu[ti] != 0 {
      Register(v, Registered(v, ti), ti);
    } else if v.held[d] != null && v.tiu[v.held[d]] != 0 {
      ShareType(v, Shared(v, ti, v.tiu[v.held[d]]), ti);
    } else {
      FirstGeneric(v, ti, d);
    }
  }

  lemma FirstGeneric(v: State, ti: TypeInfo, d: Desc)
    requires Sound(v) && ti in v.tiu && v.tiu[ti] == 0 && d in v.held && d.shape == ti.shape && !Settled(v, d)
    ensures Sound(Numbered(v, ti).(held := v.held[d := ti]))
  {
    var w := Numbered(v, ti).(held := v.held[d := ti]);
    assert Numbers(v, w, ti);
    NewGeneric(v, w, ti, d);
  }

  lemma LockNamedSound(v: State, ti: TypeInfo)
    requires Sound(v) && ti in v.tiu && !ti.Keyed()
    ensures Sound(LockNamed(v, ti))
  {
    Known(v, ti);
    if v.tiu[ti] != 0 {
      Register(v, Registered(v, ti), ti);
    } else if ti.name in v.nonGeneric {
      NamedUUID(v, ti.name);
      ShareType(v, Shared(v, ti, v.tiu[v.nonGeneric[ti.name]]), ti);
    } else {
      FirstNamed(v, ti);
    }
  }

  lemma FirstNamed(v: State, ti: TypeInfo)
    requires Sound(v) && ti in v.tiu && !ti.Keyed() && v.tiu[ti] == 0 && ti.name !in v.nonGeneric
    ensures Sound(Numbered(v, ti).(nonGeneric := v.nonGeneric[ti.name := ti]))
  {
    var w := Numbered(v, ti).(nonGeneric := v.nonGeneric[ti.name := ti]);
    assert Numbers(v, w, ti);
    NewNamed(v, w, ti);
  }

  lemma NumberTemplateSound(v: State, tt: Template)
    requires Sound(v) && tt in v.ttu
    ensures Sound(NumberTemplate(v, tt))
  {
    if v.ttu[tt] == 0 {
      assert tt.name in v.typeTemplates ==> v.typeTemplates[tt.name] in v.ttu by { Open(v); }
      if tt.name in v.typeTemplates {
        ShareTemplate(v, NumberTemplate(v, tt), tt);
      } else {
        AddTemplate(v, NumberTemplate(v, tt), tt);
      }
    }
  }

  /** A search for a numbered key finds the descriptor of its type, or there is none. */
  lemma FindsType(v: State, key: Key, uuids: seq<nat>, d: Desc?)
    requires Sound(v) && KeyKnown(v, key) && v.ttu[key.tt] != 0
    requires Has(v, key.args, uuids, |key.args|) && Finds(v, key.tt, uuids, d)
    ensures d != null ==> d in v.held && d.shape == ShapeOf(key)
    ensures d == null ==> forall e <- v.held :: e.shape != ShapeOf(key)
  {
    SearchIsExact(v, key, uuids);
  }

  /** The descriptors that agree with a numbered key are those of its type, and they are in its chain. */
  lemma SearchIsExact(v: State, key: Key, uuids: seq<nat>)
    requires Sound(v) && KeyKnown(v, key) && v.ttu[key.tt] != 0 && Has(v, key.args, uuids, |key.args|)
    ensures v.ChainsOk() && forall e <- v.held :: Agrees(v, e, key.tt, uuids) <==> e.shape == ShapeOf(key)
    ensures forall e <- v.held :: e.shape == ShapeOf(key) ==> e in Chain(v.buckets, HashOf(v.ttu[key.tt], uuids))
  {
    var tt, args := key.tt, key.args;
    HasAll(v, args, uuids);
    assert v.ChainsOk() && v.KeysOk() by { Open(v); }
    KeysAreShapes(v, tt, args);
    forall e | e in v.held
      ensures Agrees(v, e, tt, uuids) <==> SameKey(v, e, tt, args)
      ensures SameKey(v, e, tt, args) ==> e in Chain(v.buckets, HashOf(v.ttu[tt], uuids))
    {
      AgreesIsSame(v, e, tt, args, uuids);
      assert v.KeyOk(e) && e in Chain(v.buckets, e.hash);
    }
  }

  lemma AgreesIsSame(v: State, e: Desc, tt: Template, args: seq<TypeInfo>, uuids: seq<nat>)
    requires v.KeyOk(e) && v.Numbered(tt, args) && v.Uuids(args) == uuids
    ensures Agrees(v, e, tt, uuids) <==> SameKey(v, e, tt, args)
  {
    if Agrees(v, e, tt, uuids) {
      assert v.Uuids(e.args) == uuids;
    } else if v.Uuids(e.args) == uuids {
      forall i | 0 <= i < |uuids| ensures v.tiu[e.args[i]] == uuids[i] {
        assert v.Uuids(e.args)[i] == uuids[i];
      }
    }
  }

  lemma InsertSound(v: State, f: Frame, d: Desc, w: State, fs: seq<Frame>)
    requires Sound(v) && FrameOk(v, f) && Inserts(v, f, d, w, fs)
    ensures Sound(w) && AllTyped(fs)
  {
    HasAll(v, f.key.args, f.uuids);
    if Finds(v, f.key.tt, f.uuids, null) {
      FindsType(v, f.key, f.uuids, null);
      NewDesc(v, w, d);
    } else {
      FindsType(v, f.key, f.uuids, d);
    }
  }

  lemma LockSound(v: State, f: Frame, w: State, fs: seq<Frame>)
    requires Sound(v) && FrameOk(v, f) && Typed(f) && Locks(v, f, w, fs)
    ensures Sound(w)
  {
    if f.Found? {
      Known(v, f.ti);
      LockGenericSound(v, f.ti, f.d);
    } else {
      LockNamedSound(v, f.ti);
    }
  }

  /** A created type info may be stored where none with a UUID is. */
  lemma StoreSound(v: State, f: Frame, ti: TypeInfo, w: State, fs: seq<Frame>)
    requires Sound(v) && Typed(f) && Stores(v, f, ti, w, fs) && !Settled(v, f.d)
    ensures Sound(w)
  {
    var u := v.(tiu := v.tiu[ti := 0]);
    assert Brings(v, u, ti);
    TypeRegistry.LoadType(v, u, ti);
    HoldNew(u, w, f.d, ti);
  }

  lemma MoveSound(v: State, f: Frame, a: Action, w: State, fs: seq<Frame>)
    requires Sound(v) && FrameOk(v, f) && Typed(f) && Moves(v, f, a, w, fs)
    requires a.Store? && f.Creating? ==> !Settled(v, f.d)
    ensures Sound(w) && AllTyped(fs)
  {
    match a {
      case Test => if v.tiu[f.ti] != 0 { Register(v, w, f.ti); }
      case Number => NumberTemplateSound(v, f.key.tt);
      case Ask =>
      case Fold =>
      case Look(d) => FindsType(v, f.key, f.uuids, d);
      case Insert(d) => InsertSound(v, f, d, w, fs);
      case Lock => LockSound(v, f, w, fs);
      case CheckEmpty =>
      case Store(ti) => StoreSound(v, f, ti, w, fs);
      case Leave =>
    }
  }

  lemma StepUnique(c: Config, step: Step, c': Config)
    requires Unique(c) && Next(c, step, c') && !Clobbers(c, step)
    ensures Unique(c')
  {
    StepInv(c, step, c');
    match step {
      case LoadTemplate(tt) => LoadedTemplate(c.reg, c'.reg, tt);
      case LoadType(ti) => TypeRegistry.LoadType(c.reg, c'.reg, ti);
      case Call(t, ti) =>
      case Demand(t, key) =>
      case Act(t, a, fs) =>
        var calls := CallsOf(c, t);
        assert Innermost(c, t) in calls;
        MoveSound(c.reg, Innermost(c, t), a, c'.reg, fs);
        assert AllTyped(calls[..|calls| - 1] + fs);
    }
  }

  // ---- runs without clobbering -----------------------------------------------------------------

  /** No step stores over a type info that has a UUID. */
  ghost predicate Clean(cs: seq<Config>, steps: seq<Step>)
    requires |cs| == |steps| + 1
  {
    forall i {:trigger steps[i]} :: 0 <= i < |steps| ==> !Clobbers(cs[i], steps[i])
  }

  lemma {:induction false} PathUnique(cs: seq<Config>, steps: seq<Step>, i: nat)
    requires IsPath(cs, steps) && Unique(cs[0]) && i < |cs|
    requires forall j {:trigger steps[j]} :: 0 <= j < i ==> !Clobbers(cs[j], steps[j])
    ensures Unique(cs[i])
  {
    if i > 0 {
      PathUnique(cs, steps, i - 1);
      StepUnique(cs[i - 1], steps[i - 1], cs[i]);
    }
  }

  lemma InitUnique(c: Config)
    requires Init(c)
    ensures Unique(c)
  {
    RunInv([c], [], 0);
  }

  /** Without clobbering, in every interleaving registered types have equal UUIDs exactly when they are
      structurally equal. */
  lemma SameUUID(cs: seq<Config>, steps: seq<Step>, i: nat, a: TypeInfo, b: TypeInfo)
    requires IsRun(cs, steps) && Clean(cs, steps) && i < |cs|
    requires a in cs[i].reg.registered && b in cs[i].reg.registered
    ensures a in cs[i].reg.tiu && b in cs[i].reg.tiu && cs[i].reg.tiu[a] != 0
    ensures cs[i].reg.tiu[a] == cs[i].reg.tiu[b] <==> a.shape == b.shape
    ensures cs[i].reg.WorldOk() && (cs[i].reg.tiu[a] == cs[i].reg.tiu[b] <==> SameType(cs[i].reg, a, b))
  {
    InitUnique(cs[0]);
    PathUnique(cs, steps, i);
    Open(cs[i].reg);
    EqualUUIDs(cs[i].reg, a, b);
    SameTypeIff(cs[i].reg, a, b);
  }

  /** Without clobbering, two threads never get different descriptors for one type. */
  lemma OneDescriptor(cs: seq<Config>, steps: seq<Step>, i: nat, j: nat, f: Frame, g: Frame, t: Thread, u: Thread)
    requires IsRun(cs, steps) && Clean(cs, steps) && i <= j < |cs|
    requires f.Found? && g.Found? && ShapeOf(f.key) == ShapeOf(g.key)
    requires f in CallsOf(cs[i], t) && g in CallsOf(cs[j], u)
    ensures f.d == g.d
  {
    InitUnique(cs[0]);
    PathUnique(cs, steps, i);
    PathUnique(cs, steps, j);
    UUIDsStay(cs, steps, i, j);
    assert FrameOk(cs[i].reg, f) && FrameOk(cs[j].reg, g) && Typed(f) && Typed(g);
    assert cs[j].reg.UniqueOk() by { Open(cs[j].reg); }
  }

  /** Two registered types whose UUIDs say the wrong thing. */
  ghost predicate Mixed(v: State) {
    exists a <- v.registered, b <- v.registered :: a in v.tiu && b in v.tiu &&
      ((v.tiu[a] == v.tiu[b]) != (a.shape == b.shape))
  }

  lemma UniqueNotMixed(c: Config)
    requires Unique(c)
    ensures !Mixed(c.reg)
  {
    forall a, b | a in c.reg.registered && b in c.reg.registered
      ensures a in c.reg.tiu && b in c.reg.tiu && (c.reg.tiu[a] == c.reg.tiu[b] <==> a.shape == b.shape)
    {
      Open(c.reg);
      EqualUUIDs(c.reg, a, b);
    }
  }

  // ---- after clobbering ------------------------------------------------------------------------

  lemma Extend(cs: seq<Config>, steps: seq<Step>, step: Step, c: Config)
    requires IsPath(cs, steps) && Clean(cs, steps) && Next(cs[|steps|], step, c) && !Clobbers(cs[|steps|], step)
    ensures IsPath(cs + [c], steps + [step]) && Clean(cs + [c], steps + [step])
  {
  }

  /** Thread `t` is in the call `f` and nothing else has changed. */
  ghost function In(c: Config, t: Thread, f: Frame): Config {
    c.(calls := c.calls[t := [f]])
  }

  lemma OwnStep(c: Config, t: Thread, f: Frame, a: Action, g: Frame)
    requires Moves(c.reg, f, a, c.reg, [g]) && !a.CheckEmpty? && !a.Insert? && !a.Store?
    ensures Next(In(c, t, f), Act(t, a, [g]), In(c, t, g)) && !Clobbers(In(c, t, f), Act(t, a, [g]))
  {
    assert [f][..0] + [g] == [g];
    assert c.calls[t := [f]][t := [g]] == c.calls[t := [g]];
  }

  /** A path from `c` that clobbers nothing more and has brought thread `t` to `f`. */
  ghost predicate Reaches(c: Config, cs: seq<Config>, steps: seq<Step>, t: Thread, f: Frame) {
    IsPath(cs, steps) && Clean(cs, steps) && cs[0] == c && cs[|steps|] == In(c, t, f)
  }

  lemma Advance(c: Config, cs: seq<Config>, steps: seq<Step>, t: Thread, f: Frame, a: Action, g: Frame)
    returns (cs': seq<Config>, steps': seq<Step>)
    requires Reaches(c, cs, steps, t, f)
    requires Moves(c.reg, f, a, c.reg, [g]) && !a.CheckEmpty? && !a.Insert? && !a.Store?
    ensures Reaches(c, cs', steps', t, g)
  {
    OwnStep(c, t, f, a, g);
    Extend(cs, steps, Act(t, a, [g]), In(c, t, g));
    cs', steps' := cs + [In(c, t, g)], steps + [Act(t, a, [g])];
  }

  /** Reading the UUIDs of numbered arguments one after the other. */
  lemma {:induction false} FoldAll(c: Config, t: Thread, b: TypeInfo, key: Key, uuids: seq<nat>, k: nat,
                                   cs: seq<Config>, steps: seq<Step>)
    returns (cs': seq<Config>, steps': seq<Step>)
    requires Has(c.reg, key.args, uuids, |key.args|) && k <= |uuids|
    requires Reaches(c, cs, steps, t, Hashing(b, key, [], false))
    ensures Reaches(c, cs', steps', t, Hashing(b, key, uuids[..k], false))
  {
    if k == 0 {
      cs', steps' := cs, steps;
    } else {
      cs', steps' := FoldAll(c, t, b, key, uuids, k - 1, cs, steps);
      assert uuids[..k - 1] + [uuids[k - 1]] == uuids[..k];
      cs', steps' := Advance(c, cs', steps', t, Hashing(b, key, uuids[..k - 1], false), Fold, Hashing(b, key,
        uuids[..k], false));
    }
  }

  /** An idle thread registers `b`, whose key is numbered and whose descriptor is `d`, as far as the lock. */
  lemma ToTheLock(c: Config, t: Thread, b: TypeInfo, key: Key, uuids: seq<nat>, d: Desc)
    returns (cs: seq<Config>, steps: seq<Step>)
    requires CallsOf(c, t) == [] && b in c.reg.tiu && c.reg.tiu[b] == 0 && b.Linked() && b.Keyed() && KeyOf(b) == key
    requires KeyKnown(c.reg, key) && c.reg.ttu[key.tt] != 0 && Has(c.reg, key.args, uuids, |key.args|)
    requires Finds(c.reg, key.tt, uuids, d)
    ensures Reaches(c, cs, steps, t, Found(b, key, d))
  {
    cs, steps := [c, In(c, t, Entered(b))], [Call(t, b)];
    cs, steps := Advance(c, cs, steps, t, Entered(b), Test, Keying(b, key));
    cs, steps := Advance(c, cs, steps, t, Keying(b, key), Number, Hashing(b, key, [], false));
    cs, steps := FoldAll(c, t, b, key, uuids, |uuids|, cs, steps);
    assert uuids[..|uuids|] == uuids;
    cs, steps := Advance(c, cs, steps, t, Hashing(b, key, uuids, false), Look(d), Found(b, key, d));
  }

  /** Registering a created type info that was stored over the numbered `a` gives it a second UUID. */
  lemma SecondUUID(v: State, a: TypeInfo, b: TypeInfo, d: Desc)
    requires Basic(v) && a in v.tiu && v.tiu[a] != 0 && b in v.tiu && v.tiu[b] == 0 && a.shape == b.shape
    requires d in v.held && v.held[d] == b
    ensures Mixed(LockGeneric(v, b, d))
  {
    OpenBasic(v);
    var w := LockGeneric(v, b, d);
    assert w == Numbered(v, b).(held := v.held[d := b]);
    assert a in w.registered && b in w.registered && w.tiu[a] != w.tiu[b];
  }

  /** Nothing waits for a creation. */
  lemma CreatorIsAlone(v: State, calls: seq<Frame>)
    requires CallsOk(v, calls) && calls != [] && calls[|calls| - 1].Creating?
    ensures |calls| == 1
  {
    forall i | 0 < i < |calls| ensures calls[i].ti != null {
      assert WaitsFor(calls[i - 1], calls[i]);
    }
    assert FrameOk(v, calls[|calls| - 1]);
  }

  /** What clobbering leaves behind: an idle creator, and a numbered type info out of its descriptor. */
  lemma ClobberLeaves(c: Config, step: Step, c': Config) returns (a: TypeInfo, f: Frame, uuids: seq<nat>)
    requires Unique(c) && Next(c, step, c') && Clobbers(c, step)
    ensures f == Innermost(c, step.t) && CallsOf(c', step.t) == []
    ensures Stores(c.reg, f, step.a.created, c'.reg, []) && FrameOk(c'.reg, f) && Basic(c'.reg)
    ensures a in c'.reg.tiu && c'.reg.tiu[a] != 0 && a.shape == ShapeOf(f.key)
    ensures Has(c'.reg, f.key.args, uuids, |f.key.args|) && Finds(c'.reg, f.key.tt, uuids, f.d)
  {
    StepInv(c, step, c');
    f := Innermost(c, step.t);
    var calls := CallsOf(c, step.t);
    assert f in calls && Typed(f);
    CreatorIsAlone(c.reg, calls);
    assert calls[..0] + [] == [];
    FrameKept(c.reg, c'.reg, f);
    a := c.reg.held[f.d];
    uuids := StoreLeaves(c.reg, f, step.a.created, c'.reg);
  }

  lemma StoreLeaves(v: State, f: Frame, b: TypeInfo, w: State) returns (uuids: seq<nat>)
    requires Sound(v) && FrameOk(v, f) && Typed(f) && Stores(v, f, b, w, []) && Settled(v, f.d)
    ensures v.held[f.d].shape == ShapeOf(f.key)
    ensures Has(w, f.key.args, uuids, |f.key.args|) && Finds(w, f.key.tt, uuids, f.d)
  {
    assert v.held[f.d].shape == f.d.shape by { Open(v); }
    uuids := seq(|f.key.args|, i requires 0 <= i < |f.key.args| => v.tiu[f.key.args[i]]);
    SearchIsExact(v, f.key, uuids);
  }

  /** After clobbering, the creator's own registration, with no other thread taking a step and nothing more
      clobbered, ends with two UUIDs for one type. */
  lemma ClobberMixes(c: Config, step: Step, c': Config) returns (cs: seq<Config>, steps: seq<Step>)
    requires Unique(c) && Next(c, step, c') && Clobbers(c, step)
    ensures IsPath(cs, steps) && Clean(cs, steps) && cs[0] == c' && Mixed(cs[|steps|].reg)
  {
    var a, f, uuids := ClobberLeaves(c, step, c');
    var t, b, v := step.t, step.a.created, c'.reg;
    cs, steps := ToTheLock(c', t, b, f.key, uuids, f.d);
    var w := LockGeneric(v, b, f.d);
    SecondUUID(v, a, b, f.d);
    var last := c'.(reg := w, calls := c'.calls[t := []]);
    LastStep(c', t, Found(b, f.key, f.d), w, last);
    Extend(cs, steps, Act(t, Lock, []), last);
    cs, steps := cs + [last], steps + [Act(t, Lock, [])];
  }

  lemma LastStep(c: Config, t: Thread, f: Frame, w: State, last: Config)
    requires Locks(c.reg, f, w, []) && last == c.(reg := w, calls := c.calls[t := []])
    ensures Next(In(c, t, f), Act(t, Lock, []), last)
  {
    assert [f][..0] + [] == [];
    assert c.calls[t := [f]][t := []] == c.calls[t := []];
  }

  /** The exact condition, for every run: what the UUIDs of registered types say stays right, in the run and
      however it goes on without further clobbering, if and only if no step of the run clobbers. */
  lemma OneUUIDIff(cs: seq<Config>, steps: seq<Step>)
    requires IsRun(cs, steps)
    ensures Clean(cs, steps) <==>
      forall i: nat, more: seq<Config>, acts: seq<Step> ::
        i < |cs| && IsPath(more, acts) && more[0] == cs[i] && Clean(more, acts) ==> !Mixed(more[|acts|].reg)
  {
    InitUnique(cs[0]);
    if Clean(cs, steps) {
      forall i: nat, more: seq<Config>, acts: seq<Step> | i < |cs| && IsPath(more,
        acts) && more[0] == cs[i] && Clean(more, acts)
        ensures !Mixed(more[|acts|].reg)
      {
        PathUnique(cs, steps, i);
        PathUnique(more, acts, |acts|);
        UniqueNotMixed(more[|acts|]);
      }
    } else {
      var i := FirstClobber(cs, steps, |steps|);
      PathUnique(cs, steps, i);
      assert Next(cs[i], steps[i], cs[i + 1]);
      var more, acts := ClobberMixes(cs[i], steps[i], cs[i + 1]);
      assert i + 1 < |cs| && more[0] == cs[i + 1];
    }
  }

  lemma {:induction false} FirstClobber(cs: seq<Config>, steps: seq<Step>, n: nat) returns (i: nat)
    requires |cs| == |steps| + 1 && n <= |steps| && exists j | 0 <= j < n :: Clobbers(cs[j], steps[j])
    ensures i < n && Clobbers(cs[i], steps[i]) && forall j | 0 <= j < i :: !Clobbers(cs[j], steps[j])
  {
    if exists j | 0 <= j < n - 1 :: Clobbers(cs[j], steps[j]) {
      i := FirstClobber(cs, steps, n - 1);
    } else {
      i := n - 1;
    }
  }

  // ---- a run that clobbers ---------------------------------------------------------------------

  /** A template, a named type `e`, and the instance of the template for `e` twice: `a` brought by an image, `b`
      created by the runtime; `d` is the descriptor. */
  ghost predicate Cast(tt: Template, e: TypeInfo, a: TypeInfo, b: TypeInfo, d: Desc) {
    && e.Shaped() && !e.Keyed()
    && a.Shaped() && a.Keyed() && KeyOf(a) == Key(tt, [e])
    && b.Shaped() && b.Keyed() && KeyOf(b) == Key(tt, [e]) && a != b
    && d.template == tt && d.args == [e] && d.hash == HashOf(1, [1]) && d.shape == ShapeOf(Key(tt, [e]))
  }

  /** Objects for every part. */
  method Assemble() returns (tt: Template, e: TypeInfo, a: TypeInfo, b: TypeInfo, d: Desc)
    ensures Cast(tt, e, a, b, d)
  {
    tt := new Template("Box");
    e := new TypeInfo.Plain("Int64", Other);
    a := new TypeInfo.Instance("Box<Int64>", Other, tt, [e]);
    b := new TypeInfo.Instance("Box<Int64>", Other, tt, [e]);
    d := new Desc(tt, [e], HashOf(1, [1]));
  }

  /** A run without clobbering that ends in `c`. */
  ghost predicate EndsIn(cs: seq<Config>, steps: seq<Step>, c: Config) {
    IsRun(cs, steps) && Clean(cs, steps) && cs[|steps|] == c
  }

  lemma Grow(cs: seq<Config>, steps: seq<Step>, c: Config, step: Step, c': Config)
    returns (cs': seq<Config>, steps': seq<Step>)
    requires EndsIn(cs, steps, c) && Next(c, step, c') && !Clobbers(c, step)
    ensures EndsIn(cs', steps', c')
  {
    Extend(cs, steps, step, c');
    cs', steps' := cs + [c'], steps + [step];
  }

  ghost function Empty(): State {
    State(1, 1, map[], map[], seq(BUCKETS, _ => map[]), {}, map[], map[], map[], map[], map[], map[], map[])
  }

  /** The image has been loaded. */
  ghost function Loaded(tt: Template, e: TypeInfo, a: TypeInfo): State {
    Empty().(ttu := map[tt := 0], tiu := map[e := 0, a := 0])
  }

  lemma LoadAll(tt: Template, e: TypeInfo, a: TypeInfo, b: TypeInfo, d: Desc)
    returns (cs: seq<Config>, steps: seq<Step>)
    requires Cast(tt, e, a, b, d)
    ensures EndsIn(cs, steps, Config(Loaded(tt, e, a), map[], map[]))
  {
    var v1 := Empty().(ttu := map[tt := 0]);
    var v2 := v1.(tiu := map[e := 0]);
    var v3 := Loaded(tt, e, a);
    cs, steps := [Config(Empty(), map[], map[])], [];
    assert Empty().ttu[tt := 0] == map[tt := 0];
    cs, steps := Grow(cs, steps, Config(Empty(), map[], map[]), LoadTemplate(tt), Config(v1, map[], map[]));
    assert v1.tiu[e := 0] == map[e := 0] && Brings(v1, v2, e);
    cs, steps := Grow(cs, steps, Config(v1, map[], map[]), Step.LoadType(e), Config(v2, map[], map[]));
    assert v2.tiu[a := 0] == map[e := 0, a := 0] && Brings(v2, v3, a);
    cs, steps := Grow(cs, steps, Config(v2, map[], map[]), Step.LoadType(a), Config(v3, map[], map[]));
  }

  /** Only thread 0 has calls under way. */
  ghost function Solo(v: State, fs: seq<Frame>, maker: map<Desc, Thread>): Config {
    Config(v, map[0 := fs], maker)
  }

  lemma SoloStep(cs: seq<Config>, steps: seq<Step>, v: State, f: Frame, a: Action, w: State, fs: seq<Frame>,
                 m: map<Desc, Thread>)
    returns (cs': seq<Config>, steps': seq<Step>)
    requires EndsIn(cs, steps, Solo(v, [f], m)) && Moves(v, f, a, w, fs) && !a.Store? && !a.Insert?
    requires a.CheckEmpty? ==> f.d in m && m[f.d] == 0
    ensures EndsIn(cs', steps', Solo(w, fs, m))
  {
    assert [f][..0] + fs == fs;
    assert map[0 := [f]][0 := fs] == map[0 := fs];
    cs', steps' := Grow(cs, steps, Solo(v, [f], m), Act(0, a, fs), Solo(w, fs, m));
  }

  lemma SoloInsert(cs: seq<Config>, steps: seq<Step>, v: State, f: Frame, d: Desc, w: State, fs: seq<Frame>)
    returns (cs': seq<Config>, steps': seq<Step>)
    requires EndsIn(cs, steps, Solo(v, [f], map[])) && Inserts(v, f, d, w, fs) && d !in v.held
    ensures EndsIn(cs', steps', Solo(w, fs, map[d := 0]))
  {
    assert [f][..0] + fs == fs;
    assert map[0 := [f]][0 := fs] == map[0 := fs];
    var m: map<Desc, Thread> := map[];
    assert m[d := 0] == map[d := 0];
    cs', steps' := Grow(cs, steps, Solo(v, [f], m), Act(0, Insert(d), fs), Solo(w, fs, map[d := 0]));
  }

  /** Thread 0 registers `e`. */
  lemma RegisterArgument(tt: Template, e: TypeInfo, a: TypeInfo, b: TypeInfo, d: Desc)
    returns (cs: seq<Config>, steps: seq<Step>)
    requires Cast(tt, e, a, b, d)
    ensures EndsIn(cs, steps, Solo(LockNamed(Loaded(tt, e, a), e), [], map[]))
  {
    var u := Loaded(tt, e, a);
    cs, steps := LoadAll(tt, e, a, b, d);
    cs, steps := Grow(cs, steps, Config(u, map[], map[]), Call(0, e), Solo(u, [Entered(e)], map[]));
    cs, steps := SoloStep(cs, steps, u, Entered(e), Test, u, [Naming(e)], map[]);
    cs, steps := SoloStep(cs, steps, u, Naming(e), Lock, LockNamed(u, e), [], map[]);
  }

  /** The registry when thread 0 has inserted the descriptor. */
  ghost function Inserted(tt: Template, e: TypeInfo, a: TypeInfo, d: Desc): State {
    var v := NumberTemplate(LockNamed(Loaded(tt, e, a), e), tt);
    v.(buckets := Pushed(v.buckets, d), held := map[d := null], descOf := map[d.shape := d])
  }

  /** Thread 0 wants the instance and does not find its descriptor. */
  lemma DemandInstance(cs: seq<Config>, steps: seq<Step>, u: State, tt: Template, e: TypeInfo, v: State)
    returns (cs': seq<Config>, steps': seq<Step>)
    requires EndsIn(cs, steps, Solo(u, [], map[])) && KeyKnown(u, Key(tt, [e])) && v == NumberTemplate(u, tt)
    requires e in v.tiu && v.tiu[e] == 1 && Finds(v, tt, [1], null)
    ensures EndsIn(cs', steps', Solo(v, [Missing(null, Key(tt, [e]), [1])], map[]))
  {
    var key := Key(tt, [e]);
    assert map[0 := []][0 := [Keying(null, key)]] == map[0 := [Keying(null, key)]];
    cs', steps' := Grow(cs, steps, Solo(u, [], map[]), Demand(0, key), Solo(u, [Keying(null, key)], map[]));
    cs', steps' := SoloStep(cs', steps', u, Keying(null, key), Number, v, [Hashing(null, key, [], false)], map[]);
    assert [] + [v.tiu[e]] == [1];
    cs', steps' := SoloStep(cs', steps', v, Hashing(null, key, [], false), Fold, v, [Hashing(null, key, [1], false)],
      map[]);
    cs', steps' := SoloStep(cs', steps', v, Hashing(null, key, [1], false), Look(null), v, [Missing(null, key, [1])],
      map[]);
  }

  /** Thread 0 inserts the descriptor and finds it empty. */
  lemma SeeEmpty(tt: Template, e: TypeInfo, a: TypeInfo, b: TypeInfo, d: Desc)
    returns (cs: seq<Config>, steps: seq<Step>)
    requires Cast(tt, e, a, b, d)
    ensures EndsIn(cs, steps, Solo(Inserted(tt, e, a, d), [Creating(null, Key(tt, [e]), d)], map[d := 0]))
  {
    var key := Key(tt, [e]);
    var v := NumberTemplate(LockNamed(Loaded(tt, e, a), e), tt);
    var w := Inserted(tt, e, a, d);
    cs, steps := RegisterArgument(tt, e, a, b, d);
    StateFacts(tt, e, a, b, d);
    cs, steps := DemandInstance(cs, steps, LockNamed(Loaded(tt, e, a), e), tt, e, v);
    cs, steps := SoloInsert(cs, steps, v, Missing(null, key, [1]), d, w, [Found(null, key, d)]);
    cs, steps := SoloStep(cs, steps, w, Found(null, key, d), CheckEmpty, w, [Creating(null, key, d)], map[d := 0]);
  }

  lemma Join(cs: seq<Config>, steps: seq<Step>, more: seq<Config>, acts: seq<Step>)
    requires IsPath(cs, steps) && IsPath(more, acts) && more[0] == cs[|steps|]
    ensures IsPath(cs + more[1..], steps + acts) && (cs + more[1..])[|steps| + |acts|] == more[|acts|]
    ensures Clean(cs, steps) && Clean(more, acts) ==> Clean(cs + more[1..], steps + acts)
  {
    var all, both := cs + more[1..], steps + acts;
    forall i | 0 <= i < |both| ensures Next(all[i], both[i], all[i + 1])
    {
      if i < |steps| {
        assert both[i] == steps[i] && Next(cs[i], steps[i], cs[i + 1]);
      } else {
        assert both[i] == acts[i - |steps|] && Next(more[i - |steps|], acts[i - |steps|], more[i - |steps| + 1]);
      }
    }
    if Clean(cs, steps) && Clean(more, acts) {
      forall i | 0 <= i < |both| ensures !Clobbers(all[i], both[i]) {
        if i < |steps| {
          assert both[i] == steps[i];
        } else {
          assert both[i] == acts[i - |steps|];
        }
      }
    }
  }

  /** Meanwhile thread 1 registers `a`: the descriptor is settled, and thread 0 has still to store. */
  lemma Overtake(cs: seq<Config>, steps: seq<Step>, c: Config, key: Key, uuids: seq<nat>, a: TypeInfo, d: Desc)
    returns (cs': seq<Config>, steps': seq<Step>, c': Config)
    requires EndsIn(cs, steps, c) && CallsOf(c, 1) == [] && a in c.reg.tiu && c.reg.tiu[a] == 0
    requires a.Linked() && a.Keyed() && KeyOf(a) == key && KeyKnown(c.reg, key) && c.reg.ttu[key.tt] != 0
    requires 0 < c.reg.tiMax
    requires Has(c.reg, key.args, uuids, |key.args|) && Finds(c.reg, key.tt, uuids, d) && d in c.reg.held
    requires c.reg.held[d] == null
    ensures EndsIn(cs', steps', c') && CallsOf(c', 0) == CallsOf(c, 0) && Settled(c'.reg, d)
    ensures c'.reg.ttu == c.reg.ttu && c'.reg.tiu.Keys == c.reg.tiu.Keys
  {
    var more, acts := ToTheLock(c, 1, a, key, uuids, d);
    Join(cs, steps, more, acts);
    var w := LockGeneric(c.reg, a, d);
    c' := c.(reg := w, calls := c.calls[1 := []]);
    LastStep(c, 1, Found(a, key, d), w, c');
    cs', steps' := Grow(cs + more[1..], steps + acts, In(c, 1, Found(a, key, d)), Act(1, Lock, []), c');
    FirstIs(c.reg, a, d);
  }

  /** Creation overtaken by a registration: the store of thread 0 meets the type info of thread 1, and when thread
      0 has registered its own, two registered copies of one type have different UUIDs. */
  lemma TwoUUIDs(tt: Template, e: TypeInfo, a: TypeInfo, b: TypeInfo, d: Desc)
    returns (cs: seq<Config>, steps: seq<Step>)
    requires Cast(tt, e, a, b, d)
    ensures IsRun(cs, steps) && Mixed(cs[|steps|].reg) && !Clean(cs, steps)
  {
    var key := Key(tt, [e]);
    cs, steps := SeeEmpty(tt, e, a, b, d);
    var c := Solo(Inserted(tt, e, a, d), [Creating(null, key, d)], map[d := 0]);
    InsertedFacts(tt, e, a, b, d);
    cs, steps, c := Overtake(cs, steps, c, key, [1], a, d);
    cs, steps := StoreAndMix(cs, steps, c, key, b, d);
  }

  lemma StoreAndMix(cs0: seq<Config>, steps0: seq<Step>, c: Config, key: Key, b: TypeInfo, d: Desc)
    returns (cs: seq<Config>, steps: seq<Step>)
    requires EndsIn(cs0, steps0, c) && CallsOf(c, 0) == [Creating(null, key, d)] && Settled(c.reg, d)
    requires b !in c.reg.tiu && b.Shaped() && b.Keyed() && KeyOf(b) == key && KeyKnown(c.reg, key)
    ensures IsRun(cs, steps) && Mixed(cs[|steps|].reg) && !Clean(cs, steps)
  {
    var w := c.reg.(tiu := c.reg.tiu[b := 0], held := c.reg.held[d := b]);
    var c' := c.(reg := w, calls := c.calls[0 := []]);
    var store := Act(0, Store(b), []);
    assert [Creating(null, key, d)][..0] + [] == [];
    assert Stores(c.reg, Creating(null, key, d), b, w, []);
    assert Next(c, store, c') && Clobbers(c, store);
    InitUnique(cs0[0]);
    PathUnique(cs0, steps0, |steps0|);
    var more, acts := ClobberMixes(c, store, c');
    Join(cs0, steps0, [c, c'], [store]);
    cs, steps := cs0 + [c, c'][1..], steps0 + [store];
    Join(cs, steps, more, acts);
    cs, steps := cs + more[1..], steps + acts;
    assert steps[|steps0|] == store && cs[|steps0|] == c;
  }

  lemma InsertedFacts(tt: Template, e: TypeInfo, a: TypeInfo, b: TypeInfo, d: Desc)
    requires Cast(tt, e, a, b, d)
    ensures var v := Inserted(tt, e, a, d);
      && v.ttu.Keys == {tt} && v.ttu[tt] == 1 && v.tiu == map[e := 1, a := 0] && 0 < v.tiMax
      && Finds(v, tt, [1], d) && v.held == map[d := null]
  {
    StateFacts(tt, e, a, b, d);
    PushedChain(NumberTemplate(LockNamed(Loaded(tt, e, a), e), tt).buckets, d, d.hash);
  }

  lemma StateFacts(tt: Template, e: TypeInfo, a: TypeInfo, b: TypeInfo, d: Desc)
    requires Cast(tt, e, a, b, d)
    ensures var v := NumberTemplate(LockNamed(Loaded(tt, e, a), e), tt);
      && v.ttu[tt] == 1 && v.tiu == map[e := 1, a := 0] && v.held == map[] && |v.buckets| == BUCKETS
      && Chain(v.buckets, HashOf(1, [1])) == [] && Pushes(v, Inserted(tt, e, a, d), d)
  {
    var u := LockNamed(Loaded(tt, e, a), e);
    assert u == Numbered(Loaded(tt, e, a), e).(nonGeneric := map[][e.name := e]);
    var v := NumberTemplate(u, tt);
    assert v.held[d := null] == map[d := null] && v.descOf[d.shape := d] == map[d.shape := d];
  }
}
