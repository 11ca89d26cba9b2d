/** The component catalog (`ComponentRegistry`): an append-only,
    insertion-ordered sequence of component descriptors, the binding calls made
    while it is filled, and the pure queries other subsystems run over it. */
module ComponentRegistry {
  import opened Wrappers
  import opened Seqs
  import opened Metadata

  /** The instance-sharing policy a component is bound with. */
  datatype Scope = Singleton | Transient | Request

  /** One decorator entry recorded against a class: its identifying tag, the
      member and parameter index it decorates (when it does), and its payload. */
  datatype Decorator = Decorator(id: string, member: Option<string>, index: Option<nat>, data: string)

  /** What a class's registration metadata gives its descriptor: the component
      id (already resolved, fallback included), the scope, the export flag and
      the class's decorator entries in the order the descriptor reports them. */
  datatype Registration = Registration(id: string, scope: Scope, exported: bool, decorators: seq<Decorator>)

  /** A component descriptor (`ComponentInfo`). */
  datatype Info = Info(cls: Class, id: string, scope: Scope, exported: bool, decorators: seq<Decorator>)

  /** The identity of a dependency-injection container. */
  type ContainerId = nat

  /** One call into the binder. */
  datatype Binding =
    | Bound(cls: Class, scope: Scope, container: ContainerId)
      // `bindComponent`: the class bound into the registry's own container
    | BoundFromExtension(cls: Class, host: ContainerId, source: ContainerId)
      // `bindExtensionComponent`: the host resolves the class from the extension's container

  /** A registry: its container, its catalog, and the log of binder calls. */
  datatype Registry = Registry(container: ContainerId, components: seq<Info>, bindings: seq<Binding>)

  /** `count()`: the number of catalog entries. */
  function Count(r: Registry): nat
  {
    |r.components|
  }

  /** A freshly constructed registry owns an empty catalog. */
  function NewRegistry(container: ContainerId): (r: Registry)
    ensures Count(r) == 0 && r.bindings == [] && r.container == container
  {
    Registry(container, [], [])
  }

  /** The descriptor built for a class and its registration. */
  function InfoOf(cls: Class, reg: Registration): Info
  {
    Info(cls, reg.id, reg.scope, reg.exported, reg.decorators)
  }

  /** Whether the metadata store holds a registration for a class. */
  function IsRegistered(store: map<Class, Registration>): Class -> bool
  {
    (c: Class) => c in store
  }

  // ---------------------------------------------------------------------
  // register
  // ---------------------------------------------------------------------

  /** Reference definition of what `register(classes)` appends: one descriptor
      per class that carries a registration, in input order. */
  function Admitted(store: map<Class, Registration>, classes: seq<Class>): (infos: seq<Info>)
    ensures |infos| <= |classes|
    ensures forall k :: 0 <= k < |infos| ==>
      infos[k].cls in store && infos[k] == InfoOf(infos[k].cls, store[infos[k].cls])
    decreases |classes|
  {
    if |classes| == 0 then []
    else
      var last := classes[|classes| - 1];
      Admitted(store, classes[..|classes| - 1]) + (if last in store then [InfoOf(last, store[last])] else [])
  }

  /** The classes of a list of descriptors. */
  function ClassesOf(infos: seq<Info>): seq<Class>
  {
    seq(|infos|, k requires 0 <= k < |infos| => infos[k].cls)
  }

  /** The binder calls `register` makes for the descriptors it appends. */
  function ComponentBindings(infos: seq<Info>, container: ContainerId): seq<Binding>
  {
    seq(|infos|, k requires 0 <= k < |infos| => Bound(infos[k].cls, infos[k].scope, container))
  }

  /** `register(classes)`: each class with a registration is bound into the
      registry's container and appended to the catalog; the others are skipped.
      Earlier entries and earlier bindings are kept as they were. */
  method Register(r: Registry, store: map<Class, Registration>, classes: seq<Class>) returns (r': Registry)
    ensures r'.container == r.container
    ensures r'.components == r.components + Admitted(store, classes)
    ensures r'.bindings == r.bindings + ComponentBindings(Admitted(store, classes), r.container)
    ensures Count(r') == Count(r) + |Filter(classes, IsRegistered(store))|
  {
    r' := r;
    var i := 0;
    while i < |classes|
      invariant 0 <= i <= |classes|
      invariant r'.container == r.container
      invariant r'.components == r.components + Admitted(store, classes[..i])
      invariant r'.bindings == r.bindings + ComponentBindings(Admitted(store, classes[..i]), r.container)
    {
      var c := classes[i];
      assert classes[..i + 1][..i] == classes[..i];
      if c in store {
        var info := InfoOf(c, store[c]);
        ghost var before := Admitted(store, classes[..i]);
        assert ComponentBindings(before + [info], r.container)
          == ComponentBindings(before, r.container) + [Bound(info.cls, info.scope, r.container)];
        r' := r'.(bindings := r'.bindings + [Bound(info.cls, info.scope, r'.container)]);
        r' := r'.(components := r'.components + [info]);
      }
      i := i + 1;
    }
    assert classes[..|classes|] == classes;
    AdmittedClasses(store, classes);
  }

  /** The classes `register` appends are exactly, in input order and with
      repetitions, the input classes that carry a registration. */
  lemma {:induction false} AdmittedClasses(store: map<Class, Registration>, classes: seq<Class>)
    ensures ClassesOf(Admitted(store, classes)) == Filter(classes, IsRegistered(store))
    decreases |classes|
  {
    if |classes| > 0 {
      var init, last := classes[..|classes| - 1], classes[|classes| - 1];
      var tail := if last in store then [InfoOf(last, store[last])] else [];
      calc {
        ClassesOf(Admitted(store, classes));
        ClassesOf(Admitted(store, init) + tail);
        { ClassesOfAppend(Admitted(store, init), tail); }
        ClassesOf(Admitted(store, init)) + ClassesOf(tail);
        { AdmittedClasses(store, init); }
        Filter(init, IsRegistered(store)) + ClassesOf(tail);
        { FilterSingleton(last, IsRegistered(store)); }
        Filter(init, IsRegistered(store)) + Filter([last], IsRegistered(store));
        { FilterAppend(init, [last], IsRegistered(store)); }
        Filter(init + [last], IsRegistered(store));
        { assert init + [last] == classes; }
        Filter(classes, IsRegistered(store));
      }
    }
  }

  lemma ClassesOfAppend(a: seq<Info>, b: seq<Info>)
    ensures ClassesOf(a + b) == ClassesOf(a) + ClassesOf(b)
  {
  }

  /** Registering two lists one after the other appends what registering
      their concatenation appends. */
  lemma {:induction false} AdmittedAppend(store: map<Class, Registration>, a: seq<Class>, b: seq<Class>)
    ensures Admitted(store, a + b) == Admitted(store, a) + Admitted(store, b)
    decreases |b|
  {
    if |b| == 0 {
      assert a + b == a;
    } else {
      var init, last := b[..|b| - 1], b[|b| - 1];
      assert (a + b)[..|a + b| - 1] == a + init;
      assert (a + b)[|a + b| - 1] == last;
      AdmittedAppend(store, a, init);
    }
  }

  /** A class without a registration contributes nothing wherever it appears:
      nothing is appended, nothing is bound, and the count is unchanged. */
  lemma UnregisteredClassIsSkipped(store: map<Class, Registration>, a: seq<Class>, c: Class, b: seq<Class>)
    requires c !in store
    ensures Admitted(store, a + [c] + b) == Admitted(store, a + b)
  {
    AdmittedAppend(store, a + [c], b);
    AdmittedAppend(store, a, [c]);
    AdmittedAppend(store, a, b);
    assert [c][..0] == [];
  }

  /** `register` does not deduplicate: a registered class listed twice gets
      two catalog entries. */
  lemma RegisteredTwiceGivesTwoEntries(store: map<Class, Registration>, c: Class)
    requires c in store
    ensures Admitted(store, [c, c]) == [InfoOf(c, store[c]), InfoOf(c, store[c])]
  {
    assert [c, c][..1] == [c];
    assert [c][..0] == [];
  }

  // ---------------------------------------------------------------------
  // getExported and registerExtension
  // ---------------------------------------------------------------------

  function IsExported(c: Info): bool
  {
    c.exported
  }

  /** `getExported()`: the exported entries, in catalog order. */
  function GetExported(r: Registry): (res: seq<Info>)
    ensures |res| <= Count(r)
    ensures forall c :: c in res <==> c in r.components && c.exported
  {
    Filter(r.components, IsExported)
  }

  /** The binder calls `registerExtension` makes for the descriptors it imports. */
  function ExtensionBindings(infos: seq<Info>, host: ContainerId, source: ContainerId): seq<Binding>
  {
    seq(|infos|, k requires 0 <= k < |infos| => BoundFromExtension(infos[k].cls, host, source))
  }

  /** `registerExtension(ext, extContainer)`: appends exactly the extension's
      exported entries, in order, binding each once from the extension's
      container. The extension registry is a value and stays as it was. */
  method RegisterExtension(host: Registry, ext: Registry, extContainer: ContainerId) returns (r: Registry)
    ensures r.container == host.container
    ensures r.components == host.components + GetExported(ext)
    ensures r.bindings == host.bindings + ExtensionBindings(GetExported(ext), host.container, extContainer)
    ensures Count(r) == Count(host) + |GetExported(ext)|
    ensures forall c :: c in r.components <==> c in host.components || (c in ext.components && c.exported)
  {
    r := Import(host, GetExported(ext), extContainer);
    ImportedMembership(host, ext);
  }

  /** The loop of `registerExtension`: each given descriptor is appended to the
      host catalog and bound from the extension's container, in order. */
  method Import(host: Registry, imported: seq<Info>, extContainer: ContainerId) returns (r: Registry)
    ensures r.container == host.container
    ensures r.components == host.components + imported
    ensures r.bindings == host.bindings + ExtensionBindings(imported, host.container, extContainer)
  {
    var comps, binds := host.components, host.bindings;
    var i := 0;
    while i < |imported|
      invariant 0 <= i <= |imported|
      invariant comps == host.components + imported[..i]
      invariant binds == host.bindings + ExtensionBindings(imported[..i], host.container, extContainer)
    {
      var info := imported[i];
      var b := BoundFromExtension(info.cls, host.container, extContainer);
      ExtensionBindingsSnoc(imported[..i], info, host.container, extContainer);
      TakeOneMore(imported, i);
      comps := comps + [info];
      binds := binds + [b];
      i := i + 1;
    }
    TakeAll(imported);
    r := Registry(host.container, comps, binds);
  }

  lemma ExtensionBindingsSnoc(infos: seq<Info>, info: Info, host: ContainerId, source: ContainerId)
    ensures ExtensionBindings(infos + [info], host, source)
      == ExtensionBindings(infos, host, source) + [BoundFromExtension(info.cls, host, source)]
  {
  }

  /** After `registerExtension`, an entry is in the host iff it was already
      there or it is an exported entry of the extension: unexported entries
      never cross the boundary. */
  lemma ImportedMembership(host: Registry, ext: Registry)
    ensures forall c :: c in host.components + GetExported(ext) <==>
      c in host.components || (c in ext.components && c.exported)
  {
  }

  // ---------------------------------------------------------------------
  // get
  // ---------------------------------------------------------------------

  /** The filter argument of `get`; `None` stands for an absent option. */
  datatype GetOptions = GetOptions(id: Option<string>, decoratorIds: Option<seq<string>>)

  /** `get()` with no options at all. */
  const NoOptions: GetOptions := GetOptions(None, None)

  /** Whether a component owns at least one decorator whose id is listed. */
  predicate HasAnyDecorator(c: Info, ids: seq<string>)
  {
    exists k :: 0 <= k < |c.decorators| && c.decorators[k].id in ids
  }

  function HasId(id: string): Info -> bool
  {
    (c: Info) => c.id == id
  }

  function HasAnyDecoratorOf(ids: seq<string>): Info -> bool
  {
    (c: Info) => HasAnyDecorator(c, ids)
  }

  /** Whether `get(opts)` selects a component. An id filter applies only when
      the id is a non-empty string (the empty string is falsy); a decorator-id
      list applies whenever it is present, even when empty, and keeps the
      components owning at least one listed id. */
  predicate Selected(opts: GetOptions, c: Info)
  {
    && (opts.id == None || opts.id == Some("") || c.id == opts.id.value)
    && (opts.decoratorIds == None || HasAnyDecorator(c, opts.decoratorIds.value))
  }

  function SelectedBy(opts: GetOptions): Info -> bool
  {
    (c: Info) => Selected(opts, c)
  }

  /** `get(opts)` over a list of descriptors: the private id filter
      (`getComponents`) followed by the decorator-id filter. */
  function Query(comps: seq<Info>, opts: GetOptions): (res: seq<Info>)
    ensures |res| <= |comps|
    ensures forall c :: c in res <==> c in comps && Selected(opts, c)
  {
    var byId := if opts.id.Some? && opts.id.value != "" then Filter(comps, HasId(opts.id.value)) else comps;
    if opts.decoratorIds.Some? then Filter(byId, HasAnyDecoratorOf(opts.decoratorIds.value)) else byId
  }

  /** `get(opts)`: the selected catalog entries. */
  function Get(r: Registry, opts: GetOptions): (res: seq<Info>)
    ensures |res| <= Count(r)
    ensures forall c :: c in res <==> c in r.components && Selected(opts, c)
  {
    Query(r.components, opts)
  }

  /** The query keeps catalog order: selecting over a concatenation is
      concatenating the selections. */
  lemma QueryAppend(a: seq<Info>, b: seq<Info>, opts: GetOptions)
    ensures Query(a + b, opts) == Query(a, opts) + Query(b, opts)
  {
    if opts.id.Some? && opts.id.value != "" {
      FilterAppend(a, b, HasId(opts.id.value));
      if opts.decoratorIds.Some? {
        FilterAppend(Filter(a, HasId(opts.id.value)), Filter(b, HasId(opts.id.value)),
          HasAnyDecoratorOf(opts.decoratorIds.value));
      }
    } else if opts.decoratorIds.Some? {
      FilterAppend(a, b, HasAnyDecoratorOf(opts.decoratorIds.value));
    }
  }

  /** The two filters of `get` together are one filter by `Selected`. */
  lemma QueryIsOneFilter(comps: seq<Info>, opts: GetOptions)
    ensures Query(comps, opts) == Filter(comps, SelectedBy(opts))
  {
    var sel := SelectedBy(opts);
    if opts.id.Some? && opts.id.value != "" {
      if opts.decoratorIds.Some? {
        FilterTwice(comps, HasId(opts.id.value), HasAnyDecoratorOf(opts.decoratorIds.value), sel);
      } else {
        FilterSamePredicate(comps, HasId(opts.id.value), sel);
      }
    } else if opts.decoratorIds.Some? {
      FilterSamePredicate(comps, HasAnyDecoratorOf(opts.decoratorIds.value), sel);
    } else {
      FilterKeepsAll(comps, sel);
    }
  }

  /** `get` keeps every selected entry as many times as the catalog holds it
      (a class registered twice is returned twice) and no other entry. */
  lemma GetKeepsDuplicates(r: Registry, opts: GetOptions)
    ensures forall c ::
      multiset(Get(r, opts))[c] == (if Selected(opts, c) then multiset(r.components)[c] else 0)
  {
    QueryIsOneFilter(r.components, opts);
    FilterMultiplicity(r.components, SelectedBy(opts));
  }

  /** `count()` is the size of the unfiltered `get()`, and no filtered `get`
      returns more entries. */
  lemma CountMatchesGetAll(r: Registry, opts: GetOptions)
    ensures Count(r) == |Get(r, NoOptions)|
    ensures |Get(r, opts)| <= Count(r)
  {
    GetWithoutFilterIsCatalog(r, None);
  }

  /** Without an id or with the empty id, and without a decorator-id list,
      `get` returns the whole catalog in registration order. */
  lemma GetWithoutFilterIsCatalog(r: Registry, id: Option<string>)
    requires id == None || id == Some("")
    ensures Get(r, GetOptions(id, None)) == r.components
  {
  }

  /** An id no entry carries selects nothing. */
  lemma GetUnknownIdIsEmpty(r: Registry, id: string, decoratorIds: Option<seq<string>>)
    requires id != ""
    requires forall k :: 0 <= k < |r.components| ==> r.components[k].id != id
    ensures Get(r, GetOptions(Some(id), decoratorIds)) == []
  {
    FilterDropsAll(r.components, HasId(id));
  }

  /** A present but empty decorator-id list selects nothing. */
  lemma GetEmptyDecoratorListIsEmpty(r: Registry, id: Option<string>)
    ensures Get(r, GetOptions(id, Some([]))) == []
  {
    var comps := r.components;
    var byId := if id.Some? && id.value != "" then Filter(comps, HasId(id.value)) else comps;
    FilterDropsAll(byId, HasAnyDecoratorOf([]));
  }

  /** Registering one class whose id no earlier entry carries makes
      `get({id})` return exactly that class's entry. */
  lemma GetFindsNewlyRegisteredId(r: Registry, store: map<Class, Registration>, c: Class)
    requires c in store && store[c].id != ""
    requires forall k :: 0 <= k < |r.components| ==> r.components[k].id != store[c].id
    ensures Query(r.components + Admitted(store, [c]), GetOptions(Some(store[c].id), None))
      == [InfoOf(c, store[c])]
  {
    var opts := GetOptions(Some(store[c].id), None);
    var info := InfoOf(c, store[c]);
    assert [c][..0] == [];
    assert Admitted(store, [c]) == [info];
    QueryAppend(r.components, [info], opts);
    GetUnknownIdIsEmpty(r, store[c].id, None);
    FilterSingleton(info, HasId(store[c].id));
    assert Query([info], opts) == [info];
  }

  // ---------------------------------------------------------------------
  // getInfo
  // ---------------------------------------------------------------------

  /** The argument of `getInfo`: a class, or an instance of a class. */
  datatype Target = OfClass(cls: Class) | Instance(ctor: Class)

  function ClassOf(t: Target): Class
  {
    match t
    case OfClass(c) => c
    case Instance(c) => c
  }

  /** The position of the first entry whose class is `c`; `|comps|` when none is. */
  function FirstIndex(comps: seq<Info>, c: Class): (k: nat)
    ensures k <= |comps|
    ensures k < |comps| ==> comps[k].cls == c
    ensures forall j :: 0 <= j < k ==> comps[j].cls != c
    decreases |comps|
  {
    if |comps| == 0 then 0
    else if comps[0].cls == c then 0
    else 1 + FirstIndex(comps[1..], c)
  }

  /** `getInfo(target)`: the earliest entry of this catalog for the target's
      class, or absent when this catalog has none. */
  function GetInfo(r: Registry, target: Target): (res: Option<Info>)
    ensures res.None? <==> forall j :: 0 <= j < |r.components| ==> r.components[j].cls != ClassOf(target)
    ensures res.Some? ==> res.value.cls == ClassOf(target) && res.value in r.components
    ensures res.Some? ==>
      (exists k :: 0 <= k < |r.components| && r.components[k] == res.value &&
        (forall j :: 0 <= j < k ==> r.components[j].cls != ClassOf(target)))
  {
    var k := FirstIndex(r.components, ClassOf(target));
    if k < |r.components| then Some(r.components[k]) else None
  }

  /** Appending entries never changes which entry `getInfo` finds for a class
      already in the catalog; for a class not yet in it, the search continues
      into the appended part. */
  lemma {:induction false} FirstIndexAppend(a: seq<Info>, b: seq<Info>, c: Class)
    ensures FirstIndex(a, c) < |a| ==> FirstIndex(a + b, c) == FirstIndex(a, c)
    ensures FirstIndex(a, c) == |a| ==> FirstIndex(a + b, c) == |a| + FirstIndex(b, c)
    decreases |a|
  {
    if |a| > 0 {
      assert (a + b)[1..] == a[1..] + b;
      FirstIndexAppend(a[1..], b, c);
    } else {
      assert a + b == b;
    }
  }

  /** Registering a class again keeps `getInfo` on its earliest entry. */
  lemma GetInfoKeepsEarliest(r: Registry, store: map<Class, Registration>, classes: seq<Class>, t: Target)
    requires GetInfo(r, t).Some?
    ensures GetInfo(Registry(r.container, r.components + Admitted(store, classes), r.bindings), t) == GetInfo(r, t)
  {
    FirstIndexAppend(r.components, Admitted(store, classes), ClassOf(t));
  }

  /** A class that only an extension's unexported entries carry stays
      invisible to `getInfo` on the host after the import: the lookup is
      absent, not an error. */
  lemma UnexportedClassStaysAbsent(host: Registry, ext: Registry, c: Class)
    requires forall k :: 0 <= k < |host.components| ==> host.components[k].cls != c
    requires forall k :: 0 <= k < |ext.components| && ext.components[k].cls == c ==> !ext.components[k].exported
    ensures GetInfo(Registry(host.container, host.components + GetExported(ext), host.bindings), OfClass(c)).None?
  {
    var all := host.components + GetExported(ext);
    forall j | 0 <= j < |all|
      ensures all[j].cls != c
    {
      if j >= |host.components| {
        var e := all[j];
        assert e in GetExported(ext);
        var k :| 0 <= k < |ext.components| && ext.components[k] == e;
      }
    }
  }

  // ---------------------------------------------------------------------
  // getDecorators
  // ---------------------------------------------------------------------

  /** A decorator entry tagged with the descriptor of the component owning it. */
  datatype DecoratorRef = DecoratorRef(decorator: Decorator, owner: Info)

  function Tag(ds: seq<Decorator>, owner: Info): seq<DecoratorRef>
  {
    seq(|ds|, k requires 0 <= k < |ds| => DecoratorRef(ds[k], owner))
  }

  /** The sum, over the components, of how many of their decorators pass `keep`. */
  function KeptCount(comps: seq<Info>, keep: Decorator -> bool): nat
    decreases |comps|
  {
    if |comps| == 0 then 0 else |Filter(comps[0].decorators, keep)| + KeptCount(comps[1..], keep)
  }

  /** Each component's kept decorators, tagged with the component, concatenated
      in catalog order. */
  function Flatten(comps: seq<Info>, keep: Decorator -> bool): (refs: seq<DecoratorRef>)
    ensures |refs| == KeptCount(comps, keep)
    ensures forall x :: x in refs <==> x.owner in comps && x.decorator in x.owner.decorators && keep(x.decorator)
    decreases |comps|
  {
    if |comps| == 0 then []
    else
      var here := Tag(Filter(comps[0].decorators, keep), comps[0]);
      assert forall x :: x in here <==> x.owner == comps[0] && x.decorator in Filter(comps[0].decorators, keep) by {
        forall x | x in here
          ensures x.owner == comps[0] && x.decorator in Filter(comps[0].decorators, keep)
        {
          var k :| 0 <= k < |here| && here[k] == x;
        }
        forall x: DecoratorRef | x.owner == comps[0] && x.decorator in Filter(comps[0].decorators, keep)
          ensures x in here
        {
          var ds := Filter(comps[0].decorators, keep);
          var k :| 0 <= k < |ds| && ds[k] == x.decorator;
          assert here[k] == x;
        }
      }
      here + Flatten(comps[1..], keep)
  }

  /** `getDecorators(filter)`: every component's decorators that the
      per-component filter keeps, each tagged with its owner, components in
      registration order. The filter `ComponentInfo.getDecorators` applies is
      the parameter `keep`. */
  function GetDecorators(r: Registry, keep: Decorator -> bool): (refs: seq<DecoratorRef>)
    ensures |refs| == KeptCount(r.components, keep)
    ensures forall x :: x in refs <==> x.owner in r.components && x.decorator in x.owner.decorators && keep(x.decorator)
  {
    Flatten(r.components, keep)
  }

  /** The listing keeps catalog order: the listing of a concatenation is the
      concatenation of the listings. */
  lemma {:induction false} FlattenAppend(a: seq<Info>, b: seq<Info>, keep: Decorator -> bool)
    ensures Flatten(a + b, keep) == Flatten(a, keep) + Flatten(b, keep)
    decreases |a|
  {
    if |a| == 0 {
      assert a + b == b;
    } else {
      assert (a + b)[1..] == a[1..] + b;
      assert (a + b)[0] == a[0];
      FlattenAppend(a[1..], b, keep);
    }
  }

  /** Registering more components only extends the decorator listing: the
      earlier listing is a prefix, followed by the new components' decorators. */
  lemma RegisterExtendsDecoratorListing(r: Registry, store: map<Class, Registration>, classes: seq<Class>, keep: Decorator -> bool)
    ensures GetDecorators(Registry(r.container, r.components + Admitted(store, classes), r.bindings), keep)
      == GetDecorators(r, keep) + Flatten(Admitted(store, classes), keep)
  {
    FlattenAppend(r.components, Admitted(store, classes), keep);
  }
}
