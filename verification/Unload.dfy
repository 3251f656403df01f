/** Removing the types of an unloaded image (TypeInfoManager::RemoveTypeInfosForImage in
    runtime/src/TypeInfoManager.cpp). Type infos, templates, names and extension data are addresses;
    the image is any set of addresses, given by its membership test. */
module Unload {

  import opened Common

  type Addr = nat

  datatype Info = Info(generic: bool, kind: Kind, template: Addr, component: Addr, typeArgs: seq<Addr>, uuid: nat) {
    /** Identified by template and arguments. */
    predicate Keyed() {
      generic && kind != VArray
    }

    function Args(): seq<Addr> {
      if kind == RawArray || kind == CPointer then [component] else typeArgs
    }
  }

  type Infos = map<Addr, Info>

  type Image = Addr -> bool

  // ---- the closure -----------------------------------------------------------------------------

  ghost predicate Hit(image: Image, arg: Addr, gone: set<Addr>) {
    image(arg) || arg in gone
  }

  /** What one look at `t` makes of it, once the types in `gone` are to be removed. */
  ghost predicate Touched(infos: Infos, image: Image, t: Addr, gone: set<Addr>)
    requires t in infos
  {
    || image(t)
    || (infos[t].Keyed() && image(infos[t].template))
    || (infos[t].Keyed() && exists i | 0 <= i < |infos[t].Args()| :: Hit(image, infos[t].Args()[i], gone))
  }

  ghost predicate Closed(infos: Infos, image: Image, registered: set<Addr>, gone: set<Addr>)
    requires registered <= infos.Keys
  {
    forall t <- registered :: Touched(infos, image, t, gone) ==> t in gone
  }

  /** The least closed set. */
  ghost predicate IsClosure(infos: Infos, image: Image, registered: set<Addr>, gone: set<Addr>)
    requires registered <= infos.Keys
  {
    && gone <= registered && Closed(infos, image, registered, gone)
    && forall c: set<Addr> :: Closed(infos, image, registered, c) ==> gone <= c
  }

  lemma TouchedMonotone(infos: Infos, image: Image, t: Addr, a: set<Addr>, b: set<Addr>)
    requires t in infos && a <= b && Touched(infos, image, t, a)
    ensures Touched(infos, image, t, b)
  {
    if !image(t) && !image(infos[t].template) {
      var i :| 0 <= i < |infos[t].Args()| && Hit(image, infos[t].Args()[i], a);
      assert Hit(image, infos[t].Args()[i], b);
    }
  }

  method Touches(infos: Infos, image: Image, t: Addr, gone: set<Addr>) returns (remove: bool)
    requires t in infos
    ensures remove <==> Touched(infos, image, t, gone)
  {
    var info := infos[t];
    remove := image(t);
    if !remove && info.Keyed() {
      remove := image(info.template);
      if info.kind == RawArray || info.kind == CPointer {
        var arg := info.component;
        remove := remove || image(arg) || arg in gone;
        assert Hit(image, info.Args()[0], gone) <==> image(arg) || arg in gone;
      } else {
        var i := 0;
        while !remove && i < |info.typeArgs|
          invariant 0 <= i <= |info.typeArgs|
          invariant remove ==> Touched(infos, image, t, gone)
          invariant !remove ==> !image(info.template) && forall j :: 0 <= j < i ==> !Hit(image, info.Args()[j], gone)
        {
          var arg := info.typeArgs[i];
          remove := image(arg) || arg in gone;
          assert remove <==> Hit(image, info.Args()[i], gone);
          i := i + 1;
        }
      }
    }
  }

  /** Sweep the registered types, in any order, until a sweep finds nothing more to remove. */
  method Closure(infos: Infos, image: Image, registered: set<Addr>) returns (removed: set<Addr>)
    requires registered <= infos.Keys
    ensures IsClosure(infos, image, registered, removed)
  {
    removed := {};
    var changed := true;
    while changed
      invariant removed <= registered
      invariant forall c: set<Addr> :: Closed(infos, image, registered, c) ==> removed <= c
      invariant !changed ==> Closed(infos, image, registered, removed)
      decreases |registered - removed|, changed
    {
      removed, changed := Sweep(infos, image, registered, removed);
    }
  }

  method Sweep(infos: Infos, image: Image, registered: set<Addr>, before: set<Addr>)
    returns (removed: set<Addr>, changed: bool)
    requires registered <= infos.Keys && before <= registered
    requires forall c: set<Addr> :: Closed(infos, image, registered, c) ==> before <= c
    ensures before <= removed <= registered
    ensures forall c: set<Addr> :: Closed(infos, image, registered, c) ==> removed <= c
    ensures changed ==> before < removed && |registered - removed| < |registered - before|
    ensures !changed ==> removed == before && Closed(infos, image, registered, removed)
  {
    removed, changed := before, false;
    var todo := registered;
    while todo != {}
      invariant todo <= registered && before <= removed <= registered
      invariant forall c: set<Addr> :: Closed(infos, image, registered, c) ==> removed <= c
      invariant changed ==> before < removed
      invariant !changed ==> removed == before
      invariant !changed ==> forall t <- registered - todo :: Touched(infos, image, t, removed) ==> t in removed
    {
      var t :| t in todo;
      todo := todo - {t};
      if t !in removed {
        var remove := Touches(infos, image, t, removed);
        if remove {
          forall c: set<Addr> | Closed(infos, image, registered, c) ensures removed + {t} <= c {
            TouchedMonotone(infos, image, t, removed, c);
          }
          removed, changed := removed + {t}, true;
        }
      }
    }
    if changed {
      Fewer(registered - removed, registered - before);
    }
  }

  lemma Fewer(a: set<Addr>, b: set<Addr>)
    requires a < b
    ensures |a| < |b|
  {
    var x :| x in b && x !in a;
    assert a <= b - {x};
    SubsetSize(a, b - {x});
  }

  // ---- what depends on the image ---------------------------------------------------------------

  /** The sweep follows templates and arguments; a VArray also depends on its component. */
  ghost predicate Edge(infos: Infos, t: Addr, d: Addr, components: bool) {
    t in infos &&
    (|| (infos[t].Keyed() && (d == infos[t].template || d in infos[t].Args()))
     || (components && infos[t].kind == VArray && d == infos[t].component))
  }

  ghost predicate Path(infos: Infos, p: seq<Addr>, components: bool) {
    p != [] && forall i :: 0 <= i < |p| - 1 ==> Edge(infos, p[i], p[i + 1], components)
  }

  ghost predicate PathInto(infos: Infos, image: Image, t: Addr, p: seq<Addr>, components: bool) {
    Path(infos, p, components) && p[0] == t && image(p[|p| - 1])
  }

  ghost predicate Reaches(infos: Infos, image: Image, t: Addr, components: bool) {
    exists p :: PathInto(infos, image, t, p, components)
  }

  lemma ReachesImage(infos: Infos, image: Image, t: Addr, components: bool)
    requires image(t)
    ensures Reaches(infos, image, t, components)
  {
    assert PathInto(infos, image, t, [t], components);
  }

  lemma ReachesStep(infos: Infos, image: Image, t: Addr, d: Addr, components: bool)
    requires Edge(infos, t, d, components) && Reaches(infos, image, d, components)
    ensures Reaches(infos, image, t, components)
  {
    var p :| PathInto(infos, image, d, p, components);
    var q := [t] + p;
    forall i | 0 <= i < |q| - 1 ensures Edge(infos, q[i], q[i + 1], components) {
      if i > 0 {
        assert Edge(infos, p[i - 1], p[i], components);
      }
    }
    assert PathInto(infos, image, t, q, components);
  }

  lemma MoreEdges(infos: Infos, image: Image, t: Addr)
    requires Reaches(infos, image, t, false)
    ensures Reaches(infos, image, t, true)
  {
    var p :| PathInto(infos, image, t, p, false);
    forall i | 0 <= i < |p| - 1 ensures Edge(infos, p[i], p[i + 1], true) {
      assert Edge(infos, p[i], p[i + 1], false);
    }
    assert PathInto(infos, image, t, p, true);
  }

  /** Registering a generic type registers its arguments, and templates are no type infos. */
  ghost predicate Linked(infos: Infos, registered: set<Addr>) {
    && registered <= infos.Keys
    && forall t <- registered ::
      && (infos[t].Keyed() ==> infos[t].template !in infos)
      && (infos[t].Keyed() ==> forall a <- infos[t].Args() :: a in registered)
  }

  /** Everything removed depends on the image. */
  lemma RemovedReaches(infos: Infos, image: Image, registered: set<Addr>, removed: set<Addr>)
    requires registered <= infos.Keys && IsClosure(infos, image, registered, removed)
    ensures forall t <- removed :: Reaches(infos, image, t, false)
  {
    var c := set t | t in registered && Reaches(infos, image, t, false);
    forall t | t in registered && Touched(infos, image, t, c) ensures t in c {
      if image(t) {
        ReachesImage(infos, image, t, false);
      } else if image(infos[t].template) {
        ReachesImage(infos, image, infos[t].template, false);
        ReachesStep(infos, image, t, infos[t].template, false);
      } else {
        var i :| 0 <= i < |infos[t].Args()| && Hit(image, infos[t].Args()[i], c);
        if image(infos[t].Args()[i]) {
          ReachesImage(infos, image, infos[t].Args()[i], false);
        }
        ReachesStep(infos, image, t, infos[t].Args()[i], false);
      }
    }
    assert Closed(infos, image, registered, c);
  }

  /** Everything that depends on the image is removed. */
  lemma {:induction false} PathRemoved(infos: Infos, image: Image, registered: set<Addr>, removed: set<Addr>,
                                       t: Addr, p: seq<Addr>)
    requires Linked(infos, registered) && IsClosure(infos, image, registered, removed)
    requires t in registered && PathInto(infos, image, t, p, false)
    ensures t in removed
    decreases |p|
  {
    if image(t) {
      assert Touched(infos, image, t, removed);
    } else {
      assert Edge(infos, p[0], p[1], false);
      assert |p| > 2 ==> Edge(infos, p[1], p[2], false);
      if p[1] == infos[t].template {
        assert Touched(infos, image, t, removed);
      } else {
        forall i | 0 <= i < |p[1..]| - 1 ensures Edge(infos, p[1..][i], p[1..][i + 1], false) {
          assert Edge(infos, p[i + 1], p[i + 2], false);
        }
        PathRemoved(infos, image, registered, removed, p[1], p[1..]);
        var i :| 0 <= i < |infos[t].Args()| && infos[t].Args()[i] == p[1];
        assert Hit(image, infos[t].Args()[i], removed);
      }
    }
  }

  /** The sweep removes exactly the registered types from which templates and arguments lead into the
      image. */
  lemma RemovedIff(infos: Infos, image: Image, registered: set<Addr>, removed: set<Addr>, t: Addr)
    requires Linked(infos, registered) && IsClosure(infos, image, registered, removed) && t in registered
    ensures t in removed <==> Reaches(infos, image, t, false)
  {
    RemovedReaches(infos, image, registered, removed);
    if Reaches(infos, image, t, false) {
      var p :| PathInto(infos, image, t, p, false);
      PathRemoved(infos, image, registered, removed, t, p);
    }
  }

  /** No VArray outside the image has a component that leads into it. */
  ghost predicate VArraysClear(infos: Infos, image: Image, registered: set<Addr>)
    requires registered <= infos.Keys
  {
    forall v <- registered :: infos[v].kind == VArray && !image(v) ==> !Reaches(infos, image, infos[v].component, true)
  }

  lemma {:induction false} SurvivorPath(infos: Infos, image: Image, registered: set<Addr>, removed: set<Addr>,
                                        p: seq<Addr>)
    requires Linked(infos, registered) && IsClosure(infos, image, registered, removed)
    requires VArraysClear(infos, image, registered) && Path(infos, p, true) && p[0] in registered - removed
    ensures !image(p[|p| - 1])
    decreases |p|
  {
    var t := p[0];
    assert !Touched(infos, image, t, removed);
    if |p| > 1 {
      assert Edge(infos, p[0], p[1], true);
      assert |p| > 2 ==> Edge(infos, p[1], p[2], true);
      if !(infos[t].Keyed() && p[1] == infos[t].template) {
        forall i | 0 <= i < |p[1..]| - 1 ensures Edge(infos, p[1..][i], p[1..][i + 1], true) {
          assert Edge(infos, p[i + 1], p[i + 2], true);
        }
        if infos[t].Keyed() {
          var i :| 0 <= i < |infos[t].Args()| && infos[t].Args()[i] == p[1];
          assert !Hit(image, infos[t].Args()[i], removed);
          SurvivorPath(infos, image, registered, removed, p[1..]);
        } else if image(p[|p| - 1]) {
          assert PathInto(infos, image, p[1], p[1..], true);
        }
      }
    }
  }

  /** No survivor depends on the image exactly when no VArray outside it has a component that does. */
  lemma SurvivorsIff(infos: Infos, image: Image, registered: set<Addr>, removed: set<Addr>)
    requires Linked(infos, registered) && IsClosure(infos, image, registered, removed)
    ensures (forall t <- registered - removed :: !Reaches(infos, image, t, true)) <==>
      VArraysClear(infos, image, registered)
  {
    if VArraysClear(infos, image, registered) {
      forall t | t in registered - removed ensures !Reaches(infos, image, t, true) {
        forall p ensures !PathInto(infos, image, t, p, true) {
          if Path(infos, p, true) && p[0] == t {
            SurvivorPath(infos, image, registered, removed, p);
          }
        }
      }
    } else {
      var v :| v in registered && infos[v].kind == VArray && !image(v) && Reaches(infos, image, infos[v].component,
        true);
      ReachesStep(infos, image, v, infos[v].component, true);
      VArrayStays(infos, image, registered, removed, v);
    }
  }

  /** Where the components of VArrays are registered too, it is enough to follow templates and arguments from
      them. */
  lemma VArraysClearIff(infos: Infos, image: Image, registered: set<Addr>)
    requires Linked(infos, registered)
    requires forall v <- registered :: infos[v].kind == VArray ==> infos[v].component in registered
    ensures VArraysClear(infos, image, registered) <==>
      forall v <- registered :: infos[v].kind == VArray && !image(v) ==>
        !Reaches(infos, image, infos[v].component, false)
  {
    if v :| v in registered && infos[v].kind == VArray && !image(v) && Reaches(infos, image, infos[v].component,
      false) {
      MoreEdges(infos, image, infos[v].component);
    } else {
      forall v | v in registered && infos[v].kind == VArray && !image(v)
        ensures !Reaches(infos, image, infos[v].component, true)
      {
        if Reaches(infos, image, infos[v].component, true) {
          var p :| PathInto(infos, image, infos[v].component, p, true);
          FewerEdges(infos, image, registered, p);
          assert false;
        }
      }
    }
  }

  lemma {:induction false} FewerEdges(infos: Infos, image: Image, registered: set<Addr>, p: seq<Addr>)
    requires Linked(infos, registered)
    requires forall v <- registered :: infos[v].kind == VArray ==> infos[v].component in registered
    requires forall v <- registered :: infos[v].kind == VArray && !image(v) ==>
      !Reaches(infos, image, infos[v].component, false)
    requires Path(infos, p, true) && p[0] in registered && image(p[|p| - 1])
    ensures Reaches(infos, image, p[0], false)
    decreases |p|
  {
    if image(p[0]) {
      ReachesImage(infos, image, p[0], false);
    } else {
      assert Edge(infos, p[0], p[1], true);
      assert |p| > 2 ==> Edge(infos, p[1], p[2], true);
      if infos[p[0]].Keyed() && p[1] == infos[p[0]].template {
        ReachesImage(infos, image, p[1], false);
      } else {
        forall i | 0 <= i < |p[1..]| - 1 ensures Edge(infos, p[1..][i], p[1..][i + 1], true) {
          assert Edge(infos, p[i + 1], p[i + 2], true);
        }
        FewerEdges(infos, image, registered, p[1..]);
      }
      ReachesStep(infos, image, p[0], p[1], false);
    }
  }

  /** Survivors are linked as the registered types were, so that all of this applies to the next unload. */
  lemma SurvivorsLinked(infos: Infos, image: Image, registered: set<Addr>, removed: set<Addr>)
    requires Linked(infos, registered) && IsClosure(infos, image, registered, removed)
    ensures Linked(infos, registered - removed)
  {
    forall t, a | t in registered - removed && infos[t].Keyed() && a in infos[t].Args()
      ensures a in registered - removed
    {
      assert !Touched(infos, image, t, removed);
      var i :| 0 <= i < |infos[t].Args()| && infos[t].Args()[i] == a;
      assert !Hit(image, infos[t].Args()[i], removed);
    }
  }

  /** A VArray is removed only for lying in the image itself. */
  lemma VArrayStays(infos: Infos, image: Image, registered: set<Addr>, removed: set<Addr>, v: Addr)
    requires registered <= infos.Keys && IsClosure(infos, image, registered, removed)
    requires v in registered && infos[v].kind == VArray && !image(v)
    ensures v !in removed
  {
    var c := registered - {v};
    assert Closed(infos, image, registered, c);
  }

  /** Unloading the image of a struct leaves the VArray of that struct behind, whether or not the struct
      itself was registered. */
  lemma VArrayKeepsDependency(registered: set<Addr>)
    requires registered == {10, 20} || registered == {20}
    ensures
      var infos := map[10 := Info(false, Other, 0, 0, [], 1), 20 := Info(true, VArray, 0, 10, [], 2)];
      var image := (a: Addr) => a == 10;
      && Linked(infos, registered) && IsClosure(infos, image, registered, registered - {20})
      && Reaches(infos, image, 20, true) && !VArraysClear(infos, image, registered)
  {
    var infos := map[10 := Info(false, Other, 0, 0, [], 1), 20 := Info(true, VArray, 0, 10, [], 2)];
    var image := (a: Addr) => a == 10;
    assert forall c: set<Addr> :: 10 in registered ==> Touched(infos, image, 10, c);
    ReachesImage(infos, image, 10, true);
    ReachesStep(infos, image, 20, 10, true);
    assert !image(20) && infos[20].kind == VArray;
  }

  // ---- the catalogues --------------------------------------------------------------------------

  /** A row of a method table, and whether it has cached type infos. */
  datatype Row = Row(extension: Addr, superTi: Addr, cached: bool)

  /** A method table, whether it must be resolved again, and whether a stable copy of it is in use. */
  datatype Table = Table(rows: map<nat, Row>, resolve: bool, stable: bool)

  datatype Desc = Desc(template: Addr, typeInfo: Option<Addr>, args: seq<Addr>)

  /** Unloading names either one recorded address range or a whole ELF image. */
  datatype Unit = Range(begin: Addr, size: nat) | Elf(image: Image) {
    /** The code's test of an address. */
    function Contains(): (image: Image)
      ensures forall a: Addr :: image(a) <==> Within(this, a)
    {
      match this
      case Range(begin, size) => (a: Addr) => begin <= a && a - begin < size
      case Elf(image) => image
    }
  }

  /** The address belongs to the unit: one of the addresses of the range, or of the image. */
  ghost predicate Within(unit: Unit, a: Addr) {
    match unit
    case Range(begin, size) => begin <= a < begin + size
    case Elf(image) => image(a)
  }

  /** Nothing the descriptor mentions is in the image, and no type it mentions is removed. */
  ghost predicate Untouched(image: Image, removed: set<Addr>, d: Desc) {
    && !image(d.template)
    && forall t: Addr :: d.typeInfo == Some(t) || t in d.args ==> !image(t) && t !in removed
  }

  /** The untouched descriptors, in order. */
  ghost function Survivors(image: Image, removed: set<Addr>, ds: seq<Desc>): (r: seq<Desc>)
    ensures forall d :: d in r <==> d in ds && Untouched(image, removed, d)
  {
    if ds == [] then []
    else
      var d := ds[|ds| - 1];
      Survivors(image, removed, ds[..|ds| - 1]) + if Untouched(image, removed, d) then [d] else []
  }

  /** A descriptor whose types are registered stays exactly when neither its template, nor its type info, nor any
      argument leads into the image. */
  lemma UntouchedIff(infos: Infos, image: Image, registered: set<Addr>, removed: set<Addr>, d: Desc)
    requires Linked(infos, registered) && IsClosure(infos, image, registered, removed) && d.template !in infos
    requires forall t: Addr :: d.typeInfo == Some(t) || t in d.args ==> t in registered
    ensures Untouched(image, removed, d) <==>
      && !Reaches(infos, image, d.template, false)
      && forall t: Addr :: d.typeInfo == Some(t) || t in d.args ==> !Reaches(infos, image, t, false)
  {
    LeafReaches(infos, image, d.template);
    forall t: Addr | d.typeInfo == Some(t) || t in d.args
      ensures Reaches(infos, image, t, false) <==> image(t) || t in removed
    {
      StaysIff(infos, image, registered, removed, t);
    }
  }

  /** What is no type info depends on the image only by lying in it. */
  lemma LeafReaches(infos: Infos, image: Image, t: Addr)
    requires t !in infos
    ensures Reaches(infos, image, t, false) <==> image(t)
  {
    if image(t) {
      ReachesImage(infos, image, t, false);
    }
    assert forall d: Addr :: !Edge(infos, t, d, false);
    assert forall p :: PathInto(infos, image, t, p, false) ==> |p| > 1 ==> Edge(infos, p[0], p[1], false);
  }

  lemma StaysIff(infos: Infos, image: Image, registered: set<Addr>, removed: set<Addr>, t: Addr)
    requires Linked(infos, registered) && IsClosure(infos, image, registered, removed) && t in registered
    ensures Reaches(infos, image, t, false) <==> t in removed
    ensures image(t) ==> t in removed
  {
    RemovedIff(infos, image, registered, removed, t);
    if image(t) {
      assert Touched(infos, image, t, removed);
    }
  }

  /** What the sweep leaves behind, on the fields: exactly the registered types that lie outside the image and, if
      they are generic and no value array, have their template outside it and their component (raw arrays and
      pointers) or their arguments outside it and not removed. */
  lemma RemovedByFields(infos: Infos, image: Image, registered: set<Addr>, removed: set<Addr>, t: Addr)
    requires registered <= infos.Keys && IsClosure(infos, image, registered, removed) && t in registered
    ensures t !in removed <==>
      var i := infos[t];
      && !image(t)
      && (i.generic && i.kind != VArray ==> !image(i.template))
      && (i.generic && (i.kind == RawArray || i.kind == CPointer) ==> !image(i.component) && i.component !in removed)
      && (i.generic && i.kind != VArray && i.kind != RawArray && i.kind != CPointer ==>
            forall k | 0 <= k < |i.typeArgs| :: !image(i.typeArgs[k]) && i.typeArgs[k] !in removed)
  {
    var i := infos[t];
    ClosureIsFixed(infos, image, registered, removed, t);
    if i.generic && (i.kind == RawArray || i.kind == CPointer) {
      assert i.Args()[0] == i.component;
      assert Hit(image, i.Args()[0], removed) <==> image(i.component) || i.component in removed;
    } else if i.generic && i.kind != VArray {
      forall k | 0 <= k < |i.typeArgs|
        ensures Hit(image, i.Args()[k], removed) <==> image(i.typeArgs[k]) || i.typeArgs[k] in removed
      {
      }
    }
  }

  /** The least closed set holds nothing that is not touched. */
  lemma ClosureIsFixed(infos: Infos, image: Image, registered: set<Addr>, removed: set<Addr>, t: Addr)
    requires registered <= infos.Keys && IsClosure(infos, image, registered, removed) && t in registered
    ensures t in removed <==> Touched(infos, image, t, removed)
  {
    if t in removed && !Touched(infos, image, t, removed) {
      var c := removed - {t};
      forall u | u in registered && Touched(infos, image, u, c) ensures u in c {
        TouchedMonotone(infos, image, u, c, removed);
      }
      assert Closed(infos, image, registered, c);
    }
  }

  /** Erase the entries of a map for which `drop` holds, visiting the keys in any order. */
  method Erase<V>(m: map<nat, V>, drop: (nat, V) -> bool) returns (r: map<nat, V>)
    ensures r == map k | k in m && !drop(k, m[k]) :: m[k]
  {
    r := m;
    var todo := m.Keys;
    while todo != {}
      invariant todo <= m.Keys
      invariant r == map k | k in m && (k in todo || !drop(k, m[k])) :: m[k]
    {
      var k :| k in todo;
      todo := todo - {k};
      if drop(k, m[k]) {
        r := r - {k};
      }
    }
  }

  method UUIDs(infos: Infos, ts: set<Addr>) returns (us: set<nat>)
    requires ts <= infos.Keys
    ensures us == set t | t in ts :: infos[t].uuid
  {
    us := {};
    var todo := ts;
    while todo != {}
      invariant todo <= ts && us == set t | t in ts - todo :: infos[t].uuid
    {
      var t :| t in todo;
      todo := todo - {t};
      us := us + {infos[t].uuid};
    }
  }

  predicate Kept(image: Image, removed: set<Addr>, row: Row) {
    !image(row.extension) && row.superTi !in removed
  }

  /** A row whose super type is registered stays exactly when its extension lies outside the image and its super
      type does not lead into it. */
  lemma RowStaysIff(infos: Infos, image: Image, registered: set<Addr>, removed: set<Addr>, table: Table, k: nat)
    requires Linked(infos, registered) && IsClosure(infos, image, registered, removed)
    requires k in table.rows && table.rows[k].superTi in registered
    ensures k in Purged(image, removed, table).rows <==>
      !image(table.rows[k].extension) && !Reaches(infos, image, table.rows[k].superTi, false)
  {
    StaysIff(infos, image, registered, removed, table.rows[k].superTi);
  }

  /** A name whose type is registered stays listed exactly when its text lies outside the image and its type does not
      lead into it. */
  lemma NameStaysIff(infos: Infos, image: Image, registered: set<Addr>, removed: set<Addr>,
                     m: map<Addr, Addr>, r: map<Addr, Addr>, k: Addr)
    requires Linked(infos, registered) && IsClosure(infos, image, registered, removed)
    requires NamesErased(image, removed, m, r) && k in m && m[k] in registered
    ensures k in r <==> !image(k) && !Reaches(infos, image, m[k], false)
  {
    StaysIff(infos, image, registered, removed, m[k]);
  }

  /** The rows that stay lose what they cached, and the stable copy of the table goes. */
  function Purged(image: Image, removed: set<Addr>, table: Table): (r: Table)
    ensures forall k <- r.rows :: k in table.rows && r.rows[k] == table.rows[k].(cached := false)
    ensures forall k <- table.rows ::
      k in r.rows <==> !image(table.rows[k].extension) && table.rows[k].superTi !in removed
    ensures r.resolve <==> table.resolve || exists k <- table.rows :: k !in r.rows
    ensures !r.stable
  {
    var rows := map k | k in table.rows && Kept(image, removed, table.rows[k]) :: table.rows[k].(cached := false);
    Table(rows, table.resolve || rows.Keys != table.rows.Keys, false)
  }

  class Catalog {
    const infos: Infos
    var registered: set<Addr>
    var nonGeneric: map<Addr, Addr>
    var generic: map<Addr, Addr>
    var templates: map<Addr, Addr>
    var anyTi: Option<Addr>
    var objectTi: Option<Addr>
    var tables: map<nat, Table>
    var descs: map<nat, seq<Desc>>
    var images: seq<(Addr, nat)>

    /** The generation of the fast map, which an invalidation advances. */
    var fastGeneration: nat

    constructor (infos: Infos)
      ensures this.infos == infos && registered == {}
    {
      this.infos := infos;
      registered, nonGeneric, generic, templates := {}, map[], map[], map[];
      anyTi, objectTi, tables, descs := None, None, map[], map[];
      images, fastGeneration := [], 0;
    }

    /** Without a range or an image there is nothing to do; otherwise every catalogue drops exactly what
        belongs to the image or to a removed type. */
    method RemoveForImage(unit: Unit) returns (removed: set<Addr>)
      requires registered <= infos.Keys
      modifies this
      ensures Void(unit) ==> removed == {} && nonGeneric == old(nonGeneric) && generic == old(generic)
      ensures Void(unit) ==> templates == old(templates) && descs == old(descs) && tables == old(tables)
      ensures Void(unit) ==> images == old(images) && fastGeneration == old(fastGeneration)
      ensures !Void(unit) ==> images == OtherImages(unit, old(images)) && fastGeneration == old(fastGeneration) + 1
      ensures registered == old(registered) - removed && forall t <- registered :: !Within(unit, t)
      ensures forall r :: r in images ==> r in old(images) && (unit.Range? ==> Range(r.0, r.1) != unit || Void(unit))
      ensures !Void(unit) ==> IsClosure(infos, unit.Contains(), old(registered), removed)
      ensures !Void(unit) ==> NamesErased(unit.Contains(), removed, old(nonGeneric), nonGeneric)
      ensures !Void(unit) ==> NamesErased(unit.Contains(), removed, old(generic), generic)
      ensures !Void(unit) ==> TemplatesErased(unit.Contains(), old(templates), templates)
      ensures !Void(unit) ==> DescsErased(unit.Contains(), removed, old(descs), descs)
      ensures !Void(unit) ==> TablesErased(unit, infos, removed, registered, old(tables), tables)
      ensures anyTi == Cleared(unit, old(anyTi)) && objectTi == Cleared(unit, old(objectTi))
    {
      if Void(unit) {
        return {};
      }
      removed := Closure(infos, unit.Contains(), registered);
      registered := registered - removed;
      DropNames(unit, removed);
      DropTables(unit, removed);
    }

    method DropNames(unit: Unit, removed: set<Addr>)
      requires !Void(unit)
      modifies this`nonGeneric, this`generic, this`templates, this`images, this`anyTi, this`objectTi
      ensures images == OtherImages(unit, old(images))
      ensures NamesErased(unit.Contains(), removed, old(nonGeneric), nonGeneric)
      ensures NamesErased(unit.Contains(), removed, old(generic), generic)
      ensures TemplatesErased(unit.Contains(), old(templates), templates)
      ensures anyTi == Cleared(unit, old(anyTi)) && objectTi == Cleared(unit, old(objectTi))
    {
      var image := unit.Contains();
      images := EraseImages(unit, images);
      nonGeneric := EraseNames(image, removed, nonGeneric);
      generic := EraseNames(image, removed, generic);
      templates := EraseTemplates(image, templates);
      if anyTi.Some? && image(anyTi.value) {
        anyTi := None;
      }
      if objectTi.Some? && image(objectTi.value) {
        objectTi := None;
      }
    }

    method DropTables(unit: Unit, removed: set<Addr>)
      requires removed <= infos.Keys && registered <= infos.Keys
      modifies this`tables, this`descs, this`fastGeneration
      ensures TablesErased(unit, infos, removed, registered, old(tables), tables)
      ensures fastGeneration == old(fastGeneration) + 1 && DescsErased(unit.Contains(), removed, old(descs), descs)
    {
      tables := EraseTables(unit, infos, removed, registered, tables);
      fastGeneration := fastGeneration + 1;
      descs := FilterDescs(unit.Contains(), removed, descs);
    }
  }

  /** The entries of the list of images that stay: a unit that is a range takes exactly its own entry with it, an ELF
      image every entry that begins in it. */
  ghost function OtherImages(unit: Unit, rs: seq<(Addr, nat)>): (others: seq<(Addr, nat)>)
    ensures unit.Range? ==> forall r :: r in others <==> r in rs && Range(r.0, r.1) != unit
    ensures unit.Elf? ==> forall r :: r in others <==> r in rs && !Within(unit, r.0)
  {
    if rs == [] then []
    else
      var r := rs[|rs| - 1];
      OtherImages(unit, rs[..|rs| - 1]) +
      if (unit.Range? && Range(r.0, r.1) == unit) || (unit.Elf? && Within(unit, r.0)) then [] else [r]
  }

  method EraseImages(unit: Unit, rs: seq<(Addr, nat)>) returns (others: seq<(Addr, nat)>)
    ensures others == OtherImages(unit, rs)
  {
    others := [];
    for i := 0 to |rs|
      invariant others == OtherImages(unit, rs[..i])
    {
      assert rs[..i + 1][..i] == rs[..i];
      var gone := if unit.Elf? then unit.image(rs[i].0) else rs[i].0 == unit.begin && rs[i].1 == unit.size;
      if !gone {
        others := others + [rs[i]];
      }
    }
    assert rs[..|rs|] == rs;
  }

  function Cleared(unit: Unit, t: Option<Addr>): Option<Addr> {
    if !Void(unit) && t.Some? && unit.Contains()(t.value) then None else t
  }

  predicate Void(unit: Unit) {
    unit.Range? && unit.size == 0
  }

  /** A range is void exactly when no address lies within. */
  lemma VoidIff(unit: Unit)
    requires unit.Range?
    ensures Void(unit) <==> forall a: Addr :: !Within(unit, a)
  {
    if unit.size > 0 {
      assert Within(unit, unit.begin);
    }
  }

  ghost predicate NamesErased(image: Image, removed: set<Addr>, m: map<Addr, Addr>, r: map<Addr, Addr>) {
    r == map k | k in m && !image(k) && m[k] !in removed :: m[k]
  }

  method EraseNames(image: Image, removed: set<Addr>, m: map<Addr, Addr>) returns (r: map<Addr, Addr>)
    ensures NamesErased(image, removed, m, r)
  {
    r := Erase(m, (k, v) => image(k) || v in removed);
  }

  ghost predicate TemplatesErased(image: Image, m: map<Addr, Addr>, r: map<Addr, Addr>) {
    r == map k | k in m && !image(k) && !image(m[k]) :: m[k]
  }

  method EraseTemplates(image: Image, m: map<Addr, Addr>) returns (r: map<Addr, Addr>)
    ensures TemplatesErased(image, m, r)
  {
    r := Erase(m, (k, v) => image(k) || image(v));
  }

  /** A table goes exactly when a removed type has its UUID and no survivor shares it; the tables that
      stay lose the rows that point into the image, if a whole image goes. */
  ghost predicate TablesErased(unit: Unit, infos: Infos, removed: set<Addr>, registered: set<Addr>,
                               m: map<nat, Table>, r: map<nat, Table>)
    requires removed <= infos.Keys && registered <= infos.Keys
  {
    && (forall u <- m :: u !in r <==> Owned(infos, removed, u) && !Owned(infos, registered, u))
    && (forall u <- r :: u in m)
    && (forall u <- r :: r[u] == if unit.Elf? then Purged(unit.image, removed, m[u]) else m[u])
  }

  ghost predicate Owned(infos: Infos, ts: set<Addr>, u: nat)
    requires ts <= infos.Keys
  {
    exists t <- ts :: infos[t].uuid == u
  }

  method EraseTables(unit: Unit, infos: Infos, removed: set<Addr>, registered: set<Addr>, m: map<nat, Table>)
    returns (r: map<nat, Table>)
    requires removed <= infos.Keys && registered <= infos.Keys
    ensures TablesErased(unit, infos, removed, registered, m, r)
  {
    var dead := UUIDs(infos, removed);
    var live := UUIDs(infos, registered);
    dead := dead - live;
    r := Erase(m, (u, _) => u in dead);
    if unit.Elf? {
      r := map u | u in r :: Purged(unit.image, removed, r[u]);
    }
  }

  /** Every chain keeps, in order, exactly its untouched descriptors, and no chain is empty. */
  ghost predicate DescsErased(image: Image, removed: set<Addr>, m: map<nat, seq<Desc>>, r: map<nat, seq<Desc>>) {
    && (forall h <- r :: h in m && r[h] == Survivors(image, removed, m[h]) && r[h] != [])
    && (forall h <- m :: h !in r ==> Survivors(image, removed, m[h]) == [])
  }

  method MustGo(image: Image, removed: set<Addr>, d: Desc) returns (remove: bool)
    ensures remove <==> !Untouched(image, removed, d)
  {
    remove := image(d.template) || (d.typeInfo.Some? && (image(d.typeInfo.value) || d.typeInfo.value in removed));
    var idx := 0;
    while !remove && idx < |d.args|
      invariant idx <= |d.args|
      invariant remove ==> !Untouched(image, removed, d)
      invariant !remove ==> !image(d.template)
      invariant !remove ==> forall t: Addr :: d.typeInfo == Some(t) || t in d.args[..idx] ==> !image(t) && t !in removed
    {
      remove := image(d.args[idx]) || d.args[idx] in removed;
      assert d.args[..idx + 1] == d.args[..idx] + [d.args[idx]] && d.args[idx] in d.args;
      idx := idx + 1;
    }
    assert idx == |d.args| ==> d.args[..idx] == d.args;
  }

  method FilterChain(image: Image, removed: set<Addr>, ds: seq<Desc>) returns (r: seq<Desc>)
    ensures r == Survivors(image, removed, ds)
  {
    r := [];
    for i := 0 to |ds|
      invariant r == Survivors(image, removed, ds[..i])
    {
      assert ds[..i + 1][..i] == ds[..i];
      var remove := MustGo(image, removed, ds[i]);
      if !remove {
        r := r + [ds[i]];
      }
    }
    assert ds[..|ds|] == ds;
  }

  method FilterDescs(image: Image, removed: set<Addr>, descs: map<nat, seq<Desc>>) returns (r: map<nat, seq<Desc>>)
    ensures DescsErased(image, removed, descs, r)
  {
    r := map[];
    var todo := descs.Keys;
    while todo != {}
      invariant todo <= descs.Keys && r.Keys <= descs.Keys - todo
      invariant forall h <- r :: r[h] == Survivors(image, removed, descs[h]) && r[h] != []
      invariant forall h <- descs :: h !in todo && h !in r ==> Survivors(image, removed, descs[h]) == []
    {
      var h :| h in todo;
      todo := todo - {h};
      var chain := FilterChain(image, removed, descs[h]);
      if chain != [] {
        r := r[h := chain];
      }
    }
  }
}
