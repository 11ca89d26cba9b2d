# NodeArch component catalog, route helpers, interceptor metadata and launcher gate — a Dafny model

This project models four sequential pieces of the NodeArch framework and proves
properties of them in Dafny 4.11.

- **Component catalog** (`ComponentRegistry`, `component_registry.dfy`). The
  registry is an append-only, insertion-ordered sequence of component
  descriptors (`Info`). The model also keeps the log of binder calls made
  while the catalog is filled. `register` reads each class's registration from
  the metadata store, binds the class and appends its descriptor. It skips
  classes that have no registration and does not deduplicate.
  `registerExtension` imports only another registry's exported entries and
  binds each one from the extension's container. The queries are pure filters
  over the sequence: `get` (by component id and by decorator ids with OR
  semantics), `getExported`, `getInfo` (first match by class) and
  `getDecorators` (a flattened decorator listing where each entry is tagged
  with its owner). Registry operations are state transformers on a
  `Registry` value.
- **Route-path normalisers** (`RouteHelpers`, `route_helpers.dfy`). These are
  the Express extension's `getPath` and `getRouterPrefix` over `seq<char>`,
  plus the records its HTTP-method and handler-parameter decorators build.
- **Interceptor metadata** (`Metadata` in `metadata.dfy`, and
  `ControllerMetadata` in `controller_metadata.dfy`). The side table is a map keyed by (namespace,
  class). `getInterceptors`/`setInterceptor` keep a per-class append-only
  list under the `core/component/controller-interceptors` namespace.
- **Launcher gate** (`StartScript`, `start_script.dfy`). `checkNodeVersion`
  compares `(major, minor, patch)` against `20.10.0`. The launcher then
  dispatches on the load mode (`'ts'`, `'js'`, or the "unknown value" error).

`wrappers.dfy` holds an `Option` type that stands for `undefined`. `seqs.dfy`
holds the order-preserving `Filter` that models `Array.prototype.filter`, with
its lemmas: membership, multiplicity, concatenation, and filtering twice.

The model follows the code in three places where one might expect otherwise:

- `register` does not detect a class registered twice. It appends two entries,
  and `getInfo` returns the earlier one.
- A present but empty `decoratorIds` list is truthy in JavaScript, so it
  filters every component out.
- An empty-string `id` is falsy, so it behaves like no id filter.

## Model

| member | source | states |
|---|---|---|
| ComponentRegistry.NewRegistry | lib/core/src/components/component-registry.ts:23-29 | a new registry starts with an empty catalog and no bindings, on the given container |
| ComponentRegistry.Register | lib/core/src/components/component-registry.ts:99-111 | the catalog becomes the old catalog followed by exactly the descriptors of the input classes that have a registration, in input order; each is bound once into the registry's own container with its scope, in the same order; the count grows by the number of registered input classes |
| ComponentRegistry.Admitted | lib/core/src/components/component-registry.ts:99-111 | every appended descriptor belongs to a class with a registration and is built from that registration; the result is never longer than the input |
| ComponentRegistry.AdmittedClasses | lib/core/src/components/component-registry.ts:99-111 | the classes of the appended entries are exactly the input classes that carry a registration, in input order, with repetitions kept |
| ComponentRegistry.AdmittedAppend | lib/core/src/components/component-registry.ts:99-111 | registering two lists one after the other appends the same entries as registering their concatenation |
| ComponentRegistry.UnregisteredClassIsSkipped | lib/core/src/components/component-registry.ts:101-103 | a class without a registration, at any position, appends and binds nothing, so the count is unchanged |
| ComponentRegistry.RegisteredTwiceGivesTwoEntries | lib/core/src/components/component-registry.ts:105-109 | there is no deduplication: a registered class listed twice gets two identical entries |
| ComponentRegistry.GetExported | lib/core/src/components/component-registry.ts:88-90 | an entry is in the result iff it is an exported catalog entry; the result is never longer than the catalog |
| ComponentRegistry.RegisterExtension | lib/core/src/components/component-registry.ts:116-122 | the host catalog gains exactly the extension's exported entries, in order; each is bound once from the extension container into the host container; afterwards an entry is in the host iff it was already there or it is an exported entry of the extension |
| ComponentRegistry.Import | lib/core/src/components/component-registry.ts:117-121 | each given descriptor is appended to the host catalog in order, and one extension binding per descriptor is appended to the binding log in the same order |
| ComponentRegistry.ImportedMembership | lib/core/src/components/component-registry.ts:116-122 | unexported entries never cross the boundary: the imported catalog holds an entry iff the host held it or it is an exported entry of the extension |
| ComponentRegistry.Query | lib/core/src/components/component-registry.ts:168-187 | an entry is selected iff it matches a non-empty id, when one is given, and owns at least one listed decorator id, when a list is given |
| ComponentRegistry.Get | lib/core/src/components/component-registry.ts:37-45 | `get(options)` returns exactly the catalog entries the options select, and never more entries than the catalog holds |
| ComponentRegistry.QueryIsOneFilter | lib/core/src/components/component-registry.ts:37-45 | the id filter followed by the decorator-id filter is a single order-preserving filter by the selection predicate |
| ComponentRegistry.GetKeepsDuplicates | lib/core/src/components/component-registry.ts:37-45 | `get` returns each selected entry as many times as the catalog holds it, and no unselected entry |
| ComponentRegistry.CountMatchesGetAll | lib/core/src/components/component-registry.ts:164-166 | `count()` equals the length of an unfiltered `get()`, and no filtered `get` returns more entries |
| ComponentRegistry.QueryAppend | lib/core/src/components/component-registry.ts:168-187 | the filters keep registration order: querying a concatenation gives the concatenation of the queries |
| ComponentRegistry.GetWithoutFilterIsCatalog | lib/core/src/components/component-registry.ts:168-179 | with no id, or with the empty id, and no decorator list, `get` returns the whole catalog in registration order |
| ComponentRegistry.GetUnknownIdIsEmpty | lib/core/src/components/component-registry.ts:171-172 | a non-empty id that no entry carries selects nothing |
| ComponentRegistry.GetEmptyDecoratorListIsEmpty | lib/core/src/components/component-registry.ts:40-41 | a present but empty decorator-id list selects nothing |
| ComponentRegistry.GetFindsNewlyRegisteredId | lib/core/src/components/component-registry.ts:171-172 | after registering one class whose non-empty id is new to the catalog, `get({id})` returns exactly that class's entry |
| ComponentRegistry.FirstIndex | lib/core/src/components/component-registry.ts:55 | the position found holds the class, and no earlier position does; when none does, the position is the catalog length |
| ComponentRegistry.GetInfo | lib/core/src/components/component-registry.ts:52-56 | for a class or an instance of it, the result is absent iff no entry has that class; otherwise it is the earliest entry with that class |
| ComponentRegistry.FirstIndexAppend | lib/core/src/components/component-registry.ts:55 | appending entries does not change the match for a class already present; for a class not yet present, the search goes on into the appended part |
| ComponentRegistry.GetInfoKeepsEarliest | lib/core/src/components/component-registry.ts:52-56 | registering more classes, duplicates included, does not change what `getInfo` returns for a class already in the catalog |
| ComponentRegistry.UnexportedClassStaysAbsent | lib/core/src/components/component-registry.ts:52-56 | after importing an extension, `getInfo` on the host is absent for a class that only unexported extension entries carry |
| ComponentRegistry.Flatten | lib/core/src/components/component-registry.ts:62-78 | a tagged decorator is in the listing iff its owner is in the catalog, the decorator is one of the owner's, and the filter keeps it; the listing's length is the sum of the per-component kept counts |
| ComponentRegistry.GetDecorators | lib/core/src/components/component-registry.ts:62-78 | `getDecorators(filter)` lists exactly the kept decorators of all catalog entries, each tagged with its owner; its length is the sum of the per-component counts |
| ComponentRegistry.FlattenAppend | lib/core/src/components/component-registry.ts:62-78 | the listing keeps registration order: the listing of a concatenation is the concatenation of the listings |
| ComponentRegistry.RegisterExtendsDecoratorListing | lib/core/src/components/component-registry.ts:62-78 | after more components are registered, the earlier listing is a prefix of the new one, followed by the new components' decorators |
| RouteHelpers.GetPath | extensions/express/src/annotation/helpers.ts:30-38 | the result always starts with `/`; an absent or empty path gives `"/"`; a path already starting with `/` is returned unchanged; any other non-empty path ends the result, which is exactly one character longer |
| RouteHelpers.GetPathIdempotent | extensions/express/src/annotation/helpers.ts:30-38 | normalising a path twice gives the same result as normalising it once |
| RouteHelpers.GetRouterPrefix | extensions/express/src/annotation/helpers.ts:40-51 | `""` stays `""`; any other input gives a result starting with `/`; `"/"` stays `"/"`; a path with a leading and no trailing slash is unchanged; otherwise the result is `getPath` of the input with its trailing slash, if it has one, removed |
| RouteHelpers.RouterPrefixTrimsOneSlash | extensions/express/src/annotation/helpers.ts:46 | only one trailing slash is removed: an input ending in `//` gives a result that still ends in `/` |
| RouteHelpers.RouterPrefixFixedPoint | extensions/express/src/annotation/helpers.ts:46-47 | a prefix with a leading slash and no trailing slash, or exactly `"/"`, maps to itself |
| RouteHelpers.HttpMethodRecord | extensions/express/src/annotation/helpers.ts:8-13 | for every decoration context, the record names the decorated member's key (a symbol key stays a symbol), carries the HTTP method, and holds `getPath(path)` as its route path; two contexts with the same member key give the same record, whatever the target |
| RouteHelpers.StoredPathIsNormalised | extensions/express/src/annotation/helpers.ts:12 | the stored route path starts with `/`, ends with the given non-empty path, and is a fixed point of `getPath` |
| RouteHelpers.HandlerParamRecord | extensions/express/src/annotation/helpers.ts:21-26 | the `fn` ignores its decoration context: every context gets the same record, holding the parameter kind and the optional key exactly as given |
| RouteHelpers.HandlerParamRecordDeterminesArguments | extensions/express/src/annotation/helpers.ts:21-26 | the record determines the factory's arguments: equal records come from equal parameter kinds and keys |
| Metadata.SetClassMetadata | lib/core/src/component/controller/controller.metadata.ts:16 | a write stores the value under (namespace, class) and leaves every other (namespace, class) entry unchanged |
| ControllerMetadata.GetInterceptors | lib/core/src/component/controller/controller.metadata.ts:9-11 | a class with nothing stored under the interceptor namespace has the empty list; otherwise its stored list is returned |
| ControllerMetadata.SetInterceptor | lib/core/src/component/controller/controller.metadata.ts:13-17 | exactly one element is appended at the end of the class's list, earlier interceptors keep their order, other classes' lists are unchanged, and the plain controller namespace is untouched |
| ControllerMetadata.SetInterceptorsAppendsInOrder | lib/core/src/component/controller/controller.metadata.ts:13-17 | a run of `setInterceptor` calls extends the class's list by the calls' arguments, in call order |
| ControllerMetadata.FreshClassCollectsCallOrder | lib/core/src/component/controller/controller.metadata.ts:9-17 | in any table, after n calls on a class with nothing stored under the interceptor namespace, its list is exactly those n interceptors, in call order |
| ControllerMetadata.SetInterceptorsIsolatesClasses | lib/core/src/component/controller/controller.metadata.ts:13-17 | any run of calls on one class leaves every other class's list unchanged |
| ControllerMetadata.InterceptorNamespaceIsSeparate | lib/core/src/component/controller/controller.metadata.ts:6-7 | the interceptor namespace differs from the controller namespace, so an interceptor write never adds or removes a controller entry |
| StartScript.IsTargetVersion | lib/cli/start.js:50-62 | the gate accepts iff `(major, minor, patch)` is lexicographically at least `(20, 10, 0)`; exactly `20.10.0` and any major above 20 are accepted; any major below 20 and any `20.9.x` are rejected |
| StartScript.LexLeTriple | lib/cli/start.js:56-58 | on triples, lexicographic order is exactly the launcher's three-way disjunction |
| StartScript.AcceptanceIsMonotone | lib/cli/start.js:56-62 | any version at least as new as an accepted one is accepted |
| StartScript.CheckNodeVersion | lib/cli/start.js:64-67 | a rejected version forces exit status 1; an accepted one forces nothing |
| StartScript.Start | lib/cli/start.js:22-42 | a failed gate exits with status 1; otherwise load mode `'ts'` or `'js'` selects its start path, and any other value gives the unknown-value error |

## Left out

- `ComponentInfo`, `ComponentBinder`, `ComponentMetadata` and `DataRegistry` are not part of this model. A descriptor is a record `{cls, id, scope, exported, decorators}`. Its `id` is the value `getId()` reports, so the id fallback is not modelled. Its decorators are in the order the descriptor reports them, so parameter-index sorting is not modelled. A decorator-id set is the ids of those decorators.
- Binding is a log of binder calls (`Binding`). Container resolution, scope semantics and singleton sharing across containers belong to the external container library.
- The registration metadata read by `register` is a `map` parameter from class to registration. A class missing from the map has no registration.
- ComponentRegistry.GetDecorators: the filter that `ComponentInfo.getDecorators(options)` applies is taken as a parameter `keep`, because that code is not part of this model.
- `registerDataComponents` and `getDataComponent` only delegate to the data registry, so they are left out. So is the commented-out code.
- `getInfo`'s instance-to-constructor resolution is a sum type: a class, or an instance carrying its constructor.
- The registries are values. That the extension registry is unchanged by `registerExtension`, and that `get` returns a fresh copy, therefore holds by construction and needs no contract.
- The metadata side table holds one value type per instantiation. The controller namespace's own values are not modelled beyond being entries of the same table.
- StartScript.IsTargetVersion: version components are naturals. The JavaScript `Number()` parsing of the version string is not modelled. Neither is its `NaN` case: a component that parses to `NaN` (as in a pre-release version string) makes every comparison it appears in false. The version is then rejected only when that component decides the outcome, so `20.10.0-pre` is rejected while `21.0.0-pre` is accepted by the major-version comparison.
- StartScript.Start: `getLoadMode()` is read once. The launcher calls it twice and assumes both calls agree. File reads, the SWC loader registration, dynamic `import`, console output and `process.exit` are effects outside the model.
- The enum values of `HttpMethod`, `RouteHandlerParam` and `ExpressAnnotationId` are not part of this model. The first two are plain strings here.
- Binder and container errors are not modelled: `Register` and `Import` are total. In the source a throwing binder call propagates and leaves a partial catalog, which differs between the two operations. `register` binds before it pushes, so the failing class is left out. `registerExtension` pushes before it binds, so the failing entry is already imported.
- The metadata table holds values, not shared arrays. In the source, `getInterceptors` returns the stored array itself, and `setInterceptor` pushes into that array. So a list a caller obtained earlier keeps growing with later calls, and a caller's own mutation of it changes the table. Neither aliasing effect exists in the model.
- StartScript.Start: the gate-first reading follows the order of statements in `lib/cli/start.js`. The file is an ES module, so its static imports (lines 11-16) are linked and evaluated before `checkNodeVersion()` on line 9 runs. On a Node.js release without `module.register`, linking fails before the gate prints its message. The process still ends with a non-zero status, but the outcome is not the gate's `Exit(1)`.
- The CLI service, app service, annotation wrappers, Socket.IO/Redis adapters, type-only interface files and templates are not modelled.
