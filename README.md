# Stage library task: a Dafny model

This project models `ClassLoaderStageLibraryTask`. It is the data collector's stage library: it loads the stage definitions of every installed stage library at start-up, and it serves them afterwards. It also hands out private class loaders to stages that ask for one. The model is in six modules:

- `Wrappers` (wrappers.dfy): `Option` and `Result`.
- `Loaders` (loaders.dfy): class loaders as values, and the three reflective helpers `duplicateClassLoader`, `getClassLoaderKey` and `isPrivateClassLoader`. Reflection is replaced by an `Isolation` value. It records whether the first stage-library loader is an `SDCClassLoader`, and which loader is the container's. The module also has the map that the pool's `ClassLoaderFactory` builds from the runtime's loaders.
- `DependsOnChain` (depends_on_chain.dfy): `computeDependsOnChain`. For every configuration field, the method walks the `dependsOn` pointers and records each controller it meets with the values that trigger it. An empty record is stored as the null marker. Java's loop has no cycle detection. The model therefore calls a field map `Acyclic` when every walk stops within one hop more than there are fields. It proves that any walk that stops at all stops within that bound, and that a walk which has not stopped by then never stops.
- `Catalog` (catalog.dfy): `loadStages` as a function over its inputs:
  - whether the runtime configuration loads;
  - per library, the extracted library definition and its manifest resources;
  - per declared class, what loading and extraction produced.

  Any failure aborts the whole build. Duplicate keys are checked per manifest resource. The list keeps every stage in discovery order, and the map keeps the last stage under each key.
- `Pool` (pool.dfy): the keyed object pool as `initTask` configures it. It is modelled on an abstract state:
  - idle loaders, most recently returned first;
  - borrowed loaders;
  - whether the pool is closed;
  - a creation counter.

  The total is bounded (configured, default 50). There is no bound per key, no idle eviction and no waiting. A borrow takes the top idle loader of its key (LIFO). Failing that, it makes room by destroying the oldest idle loaders of any key (`clearOldest`) and creates a duplicate of the loader registered under the key. The invariant `PoolValid` has four parts:
  - the total bound;
  - a closed pool has nothing idle;
  - every pooled loader duplicates the loader registered under its key;
  - with isolation, no loader is in the pool twice.
- `StageLibrary` (stage_library_task.dfy): the task object `StageLibraryTask`. It holds the catalog, the per-locale cache of localized stage lists, the pool configuration and the pool state. Its methods (`InitTask`, `LoadStages`, `GetStages`, `GetStage`, `GetStageClassLoader`, `ReleaseStageClassLoader`, `StopTask`) are each proved against a function of the old state. `Valid()` ties the fields to the build, the pool invariant and the cache.

Stage and configuration definitions are values. In the source, `computeDependsOnChain` mutates the definition after it has been appended to the list and put in the map. Both containers hold the same object, so both see the resolved definition. The model resolves the definition first and then appends it, which gives the same observable result.

Loader identity is modelled by a copy number. The loaders the runtime creates, the container's included, carry copy 0 (`Original`). A duplicate made for the pool carries the pool's next creation number, from 1 on, and reports itself private, as `SDCClassLoader.duplicateStageClassLoader` builds a private stage loader. `InitTask` takes the runtime's loaders being originals as its precondition.

Three properties follow from the release path, where only a loader that reports itself private goes back to the pool:

- With isolation, a duplicate handed out for a private stage reports itself private, so repeated executions of one stage reuse the first duplicate forever (`CyclesReuseOneLoader`).
- A stage without a private class loader runs in its own loader. When that loader does not report itself private, releasing it leaves the pool as it was (`CyclesOwnLoader`).
- Without isolation no loader counts as private, so nothing handed out for a private stage is ever returned. The pool is then exhausted after as many executions as the total allows (`CyclesWithoutIsolationExhaust`).

## Model

| member | source | states |
|---|---|---|
| `Loaders.DuplicateKeepsIdentity` | container/src/main/java/com/streamsets/pipeline/stagelibrary/ClassLoaderStageLibraryTask.java:103-105 | a duplicate keeps the key and the name; with isolation and a new copy number it is not an original, differs from the original it copies, and, the container's loader being an original, reports private; without isolation it is the loader itself |
| `Loaders.NoIsolationNothingPrivate` | container/src/main/java/com/streamsets/pipeline/stagelibrary/ClassLoaderStageLibraryTask.java:107-117 | without isolation every loader has the key "key" and none is private |
| `Loaders.ContainerNeverPrivate` | container/src/main/java/com/streamsets/pipeline/stagelibrary/ClassLoaderStageLibraryTask.java:111-117 | the container's own loader is never private, whatever its flag |
| `Loaders.LastRegistrationWins` | container/src/main/java/com/streamsets/pipeline/stagelibrary/ClassLoaderStageLibraryTask.java:122-127 | a key is in the factory map exactly when some loader has it, and it maps to the last such loader |
| `Loaders.RegisteredUnderOwnKey` | container/src/main/java/com/streamsets/pipeline/stagelibrary/ClassLoaderStageLibraryTask.java:122-127 | every loader in the factory map sits under its own key |
| `Loaders.BuildClassLoaderMap` | container/src/main/java/com/streamsets/pipeline/stagelibrary/ClassLoaderStageLibraryTask.java:122-127 | the constructor's loop builds exactly the registration map of the runtime's loaders |
| `DependsOnChain.FillDependsOnMap` | container/src/main/java/com/streamsets/pipeline/stagelibrary/ClassLoaderStageLibraryTask.java:255-264 | the while loop puts into a fresh map exactly the links of the field's walk, in order |
| `DependsOnChain.ComputeDependsOnChain` | container/src/main/java/com/streamsets/pipeline/stagelibrary/ClassLoaderStageLibraryTask.java:252-272 | the loop over fields, in any order and through the partly updated map, yields every field resolved against the original pointers |
| `DependsOnChain.StopsWithinFieldCount` | container/src/main/java/com/streamsets/pipeline/stagelibrary/ClassLoaderStageLibraryTask.java:258-264 | a walk that stops at all stops within one hop more than there are fields |
| `DependsOnChain.NeverStopsOnCycle` | container/src/main/java/com/streamsets/pipeline/stagelibrary/ClassLoaderStageLibraryTask.java:258-264 | a walk still going after that bound never stops, so the source loops forever on a cycle |
| `DependsOnChain.ChainIsWalk` | container/src/main/java/com/streamsets/pipeline/stagelibrary/ClassLoaderStageLibraryTask.java:258-264 | the chain starts with the field's own link; each next link is that of the field the previous one names; it ends at a missing field or one without dependsOn; controllers are distinct |
| `DependsOnChain.DependsOnMapIsChain` | container/src/main/java/com/streamsets/pipeline/stagelibrary/ClassLoaderStageLibraryTask.java:256-271 | the stored map is null exactly when the field has no non-empty dependsOn; otherwise its keys are the chain's controllers, each mapped to the trigger values of the link that names it |
| `DependsOnChain.DependsOnMapClosed` | container/src/main/java/com/streamsets/pipeline/stagelibrary/ClassLoaderStageLibraryTask.java:258-264 | a controller in the map that itself depends on another field brings that link into the map too |
| `DependsOnChain.ResolveKeepsLinks` | container/src/main/java/com/streamsets/pipeline/stagelibrary/ClassLoaderStageLibraryTask.java:252-272 | resolution changes only dependsOnMap: names, pointers and trigger values stay |
| `DependsOnChain.ResolveIdempotent` | container/src/main/java/com/streamsets/pipeline/stagelibrary/ClassLoaderStageLibraryTask.java:252-272 | resolving a resolved field map changes nothing |
| `DependsOnChain.TwoHopExample` | container/src/main/java/com/streamsets/pipeline/stagelibrary/ClassLoaderStageLibraryTask.java:252-272 | C on B on A resolves C to {B: [x], A: [1, 2]} and A to the null marker |
| `Catalog.BuildShape` | container/src/main/java/com/streamsets/pipeline/stagelibrary/ClassLoaderStageLibraryTask.java:210-244 | after a build the list holds every declared stage, resolved, in discovery order, one per class name; the map has a key exactly when some stage has it, holding the last stage with that key |
| `Catalog.BuildSucceedsIff` | container/src/main/java/com/streamsets/pipeline/stagelibrary/ClassLoaderStageLibraryTask.java:191-250 | the build succeeds exactly when the runtime configuration loads, every library definition and resource list is extracted, every manifest is read, every class is found and extracted, and no manifest repeats a key |
| `Catalog.LoadLibrariesSucceedsIff` | container/src/main/java/com/streamsets/pipeline/stagelibrary/ClassLoaderStageLibraryTask.java:210-244 | the library loop succeeds exactly when every library is loadable |
| `Catalog.LoadManifestsSucceedsIff` | container/src/main/java/com/streamsets/pipeline/stagelibrary/ClassLoaderStageLibraryTask.java:216-239 | the resource loop succeeds exactly when every resource is readable and loadable with its own fresh duplicate check |
| `Catalog.LoadClassesSucceedsIff` | container/src/main/java/com/streamsets/pipeline/stagelibrary/ClassLoaderStageLibraryTask.java:221-237 | the class loop succeeds exactly when every class is extracted and no key repeats, within the classes or against the keys already seen |
| `Catalog.LoadClassesDuplicate` | container/src/main/java/com/streamsets/pipeline/stagelibrary/ClassLoaderStageLibraryTask.java:228-233 | a duplicate error from the class loop names the library, and either a seen class and a later class with the key, or two classes of the list with it, in order |
| `Catalog.LoadManifestsDuplicate` | container/src/main/java/com/streamsets/pipeline/stagelibrary/ClassLoaderStageLibraryTask.java:216-233 | a duplicate error from the resource loop names two classes of one resource |
| `Catalog.LoadLibrariesDuplicate` | container/src/main/java/com/streamsets/pipeline/stagelibrary/ClassLoaderStageLibraryTask.java:210-233 | a duplicate error from the library loop comes from one resource of one library |
| `Catalog.BuildDuplicateNamesBoth` | container/src/main/java/com/streamsets/pipeline/stagelibrary/ClassLoaderStageLibraryTask.java:228-232 | a duplicate build error names a library, the key, and two classes declared in that order by one resource of that library |
| `Catalog.LoadClassesOnlyDuplicates` | container/src/main/java/com/streamsets/pipeline/stagelibrary/ClassLoaderStageLibraryTask.java:221-233 | when every class is extracted, the class loop can fail only with a duplicate key |
| `Catalog.LoadManifestsOnlyDuplicates` | container/src/main/java/com/streamsets/pipeline/stagelibrary/ClassLoaderStageLibraryTask.java:216-233 | when every resource is read and every class extracted, the resource loop can fail only with a duplicate key |
| `Catalog.LoadLibrariesOnlyDuplicates` | container/src/main/java/com/streamsets/pipeline/stagelibrary/ClassLoaderStageLibraryTask.java:210-233 | when every library, resource and class is read, the library loop can fail only with a duplicate key |
| `Catalog.BuildRejectsDuplicateInManifest` | container/src/main/java/com/streamsets/pipeline/stagelibrary/ClassLoaderStageLibraryTask.java:228-232 | when everything else loads but one resource declares two stages with one key, the build fails with a duplicate-key error naming a pair declared by one resource |
| `Catalog.DuplicateAcrossManifestsAccepted` | container/src/main/java/com/streamsets/pipeline/stagelibrary/ClassLoaderStageLibraryTask.java:216-236 | the same key in two resources of one library is accepted: the list keeps both, the map the second |
| `Catalog.CreateKeyInjective` | container/src/main/java/com/streamsets/pipeline/stagelibrary/ClassLoaderStageLibraryTask.java:274-276 | keys built from colon-free library and stage names determine library, name and version |
| `Catalog.CreateKeyCollides` | container/src/main/java/com/streamsets/pipeline/stagelibrary/ClassLoaderStageLibraryTask.java:274-276 | with a colon inside a name, two different stages share a key |
| `Pool.EmptyPoolValid` | container/src/main/java/com/streamsets/pipeline/stagelibrary/ClassLoaderStageLibraryTask.java:170-181 | the new pool holds nothing and keeps the invariant |
| `Pool.MakeRoomFacts` | container/src/main/java/com/streamsets/pipeline/stagelibrary/ClassLoaderStageLibraryTask.java:172-178 | making room under the total fails exactly when every loader the total allows is borrowed; otherwise it destroys only the oldest idle loaders |
| `Pool.BorrowKeepsValid` | container/src/main/java/com/streamsets/pipeline/stagelibrary/ClassLoaderStageLibraryTask.java:130-132 | a borrow keeps the invariant, so the total bound holds; it adds exactly the handed-out loader to the borrowed ones, a duplicate of the loader registered under the key |
| `Pool.BorrowedNotInUse` | container/src/main/java/com/streamsets/pipeline/stagelibrary/ClassLoaderStageLibraryTask.java:130-132 | with isolation a borrowed loader is held by no other borrower |
| `Pool.BorrowFailsIff` | container/src/main/java/com/streamsets/pipeline/stagelibrary/ClassLoaderStageLibraryTask.java:170-181 | a borrow fails, without waiting, exactly when the pool is closed, or the key has no idle loader and every loader the total allows is borrowed, or nothing is registered under the key; there is no bound per key |
| `Pool.BorrowReusesIdle` | container/src/main/java/com/streamsets/pipeline/stagelibrary/ClassLoaderStageLibraryTask.java:174-177 | when the key has idle loaders, the most recently returned one is handed out, wherever other keys' loaders sit; exactly that entry leaves the idle loaders and joins the borrowed ones; nothing is created or destroyed |
| `Pool.ReturnKeepsValid` | container/src/main/java/com/streamsets/pipeline/stagelibrary/ClassLoaderStageLibraryTask.java:326 | a return keeps the invariant and moves the loader from borrowed to idle, or destroys it when the pool is closed |
| `Pool.ReturnFailsIff` | container/src/main/java/com/streamsets/pipeline/stagelibrary/ClassLoaderStageLibraryTask.java:326-333 | a return is refused exactly when the loader is not borrowed under that key |
| `Pool.ReturnThenBorrow` | container/src/main/java/com/streamsets/pipeline/stagelibrary/ClassLoaderStageLibraryTask.java:174-177 | returning a loader and borrowing under its key gives that loader back and restores the pool exactly |
| `Pool.CloseFacts` | container/src/main/java/com/streamsets/pipeline/stagelibrary/ClassLoaderStageLibraryTask.java:185-188 | closing keeps the invariant, destroys the idle loaders, leaves the borrowed ones, is idempotent, and every later borrow fails |
| `Pool.OneKeyMayFillThePool` | container/src/main/java/com/streamsets/pipeline/stagelibrary/ClassLoaderStageLibraryTask.java:176-178 | one key alone may take the whole total: as many borrows in a row succeed as the total allows |
| `StageLibrary.LocalizeAll` | container/src/main/java/com/streamsets/pipeline/stagelibrary/ClassLoaderStageLibraryTask.java:155-164 | the localized list exists exactly when every stage localizes, and is then every stage localized, in order |
| `StageLibrary.LoadLocalized` | container/src/main/java/com/streamsets/pipeline/stagelibrary/ClassLoaderStageLibraryTask.java:157-163 | the cache loader's loop computes that list, or gives up at a failure |
| `StageLibrary.StagesView` | container/src/main/java/com/streamsets/pipeline/stagelibrary/ClassLoaderStageLibraryTask.java:284-291 | without a locale the catalog list; with one, every stage localized, or the catalog list when some stage fails to localize |
| `StageLibrary.LookupFindsLastDiscovered` | container/src/main/java/com/streamsets/pipeline/stagelibrary/ClassLoaderStageLibraryTask.java:295-301 | a lookup not for execution leaves the pool alone and returns the last stage discovered under the key, or null when none has it; for execution an unknown key throws |
| `StageLibrary.ExecutionGetsPrivateCopy` | container/src/main/java/com/streamsets/pipeline/stagelibrary/ClassLoaderStageLibraryTask.java:295-318 | for execution a private stage comes back as its definition with only the loader replaced, by a duplicate of the loader registered under the stage loader's key; with isolation no other borrower holds it, it reports private, and it is neither the stage's own loader nor any registered original |
| `StageLibrary.ReleaseThenGetReuses` | container/src/main/java/com/streamsets/pipeline/stagelibrary/ClassLoaderStageLibraryTask.java:303-335 | with isolation a loader handed out for a private stage reports private, so releasing it sends it back under its key; the next request gets the same loader and the same pool |
| `StageLibrary.CyclesReuseOneLoader` | container/src/main/java/com/streamsets/pipeline/stagelibrary/ClassLoaderStageLibraryTask.java:303-335 | with isolation, repeated get and release of one private stage never fails once one loader can exist, and never holds more than one loader more |
| `StageLibrary.CyclesOwnLoader` | container/src/main/java/com/streamsets/pipeline/stagelibrary/ClassLoaderStageLibraryTask.java:303-335 | a stage without a private class loader gets its own loader; when that loader is not private any number of get and release cycles leave the pool unchanged; when it is a private original, with isolation the release is refused as never borrowed |
| `StageLibrary.IsolationFromFirstLoader` | container/src/main/java/com/streamsets/pipeline/stagelibrary/ClassLoaderStageLibraryTask.java:119-146 | isolation is decided by the first stage-library loader; without it every release leaves the pool as it was and the factory holds only the last runtime loader under "key"; with it every runtime loader is registered under its name |
| `StageLibrary.CyclesWithoutIsolationExhaust` | container/src/main/java/com/streamsets/pipeline/stagelibrary/ClassLoaderStageLibraryTask.java:303-335 | without isolation released loaders are never returned, so the pool is exhausted after as many executions as the total allows |
| `StageLibrary.StageLibraryTask.constructor` | container/src/main/java/com/streamsets/pipeline/stagelibrary/ClassLoaderStageLibraryTask.java:69-74 | stores the runtime's inputs; nothing is loaded |
| `StageLibrary.StageLibraryTask.InitTask` | container/src/main/java/com/streamsets/pipeline/stagelibrary/ClassLoaderStageLibraryTask.java:141-182 | given the runtime's loaders as originals, fails exactly as the build fails; on success the task is valid, with an empty cache and an empty pool bounded by the configured total |
| `StageLibrary.StageLibraryTask.LoadStages` | container/src/main/java/com/streamsets/pipeline/stagelibrary/ClassLoaderStageLibraryTask.java:191-250 | the nested loops produce exactly the build's catalog, or its error |
| `StageLibrary.StageLibraryTask.GetStages` | container/src/main/java/com/streamsets/pipeline/stagelibrary/ClassLoaderStageLibraryTask.java:284-291 | returns the stages view for the locale; caches a successful localization only |
| `StageLibrary.StageLibraryTask.GetStage` | container/src/main/java/com/streamsets/pipeline/stagelibrary/ClassLoaderStageLibraryTask.java:295-301 | result and new pool are those of the lookup function on the old pool; the task stays valid |
| `StageLibrary.StageLibraryTask.GetStageClassLoader` | container/src/main/java/com/streamsets/pipeline/stagelibrary/ClassLoaderStageLibraryTask.java:303-318 | a non-private stage keeps its loader; otherwise a borrow under the key of its loader, the failure passed on and the pool unchanged |
| `StageLibrary.StageLibraryTask.ReleaseStageClassLoader` | container/src/main/java/com/streamsets/pipeline/stagelibrary/ClassLoaderStageLibraryTask.java:321-335 | only a private loader is returned, under its own key; a refused return is reported and the pool unchanged |
| `StageLibrary.StageLibraryTask.StopTask` | container/src/main/java/com/streamsets/pipeline/stagelibrary/ClassLoaderStageLibraryTask.java:185-188 | closes the pool and keeps the task valid |

## Left out

- Logging, the library and stage counters, timing and JMX are not modelled: they do not affect results.
- `getPipeline` (lines 279-281) returns a fixed definition from elsewhere and has no logic to model.
- `ErrorHandlingChooserValues.setErrorHandlingOptions` (line 167) is a call into another component. It is not modelled.
- DataFormatChooserValues.java is not part of this model: it plays no part in the stage library.
- JSON parsing of a manifest is not modelled. A resource arrives as its list of class names, or as a read failure. A resource without "stageClasses" would throw a NullPointerException; that case is not modelled.
- Extraction of stage and library definitions, class loading and the runtime configuration are inputs. The stage's `getStageClass()`, named in the duplicate error, is modelled by its class name.
- Reflection is replaced by the isolation flag. A reflective call that throws (an `Error` in the source) is not modelled. Isolation is decided by the first loader alone. Later loaders of another kind are treated like the first.
- SDCClassLoader is not part of this model. Its `duplicateStageClassLoader` is modelled as a new loader with the same name, marked private. Object identity is modelled by copy numbers, with the runtime's own loaders as originals (copy 0); `InitTask` requires that of its inputs.
- The `LocaleInContext` thread-local is a parameter of `GetStages`. `loadStages` setting and clearing the default locale is not modelled. Localization of one stage is a function that may fail.
- StageLibrary.StagesView: every localization failure falls back to the catalog list. The source catches only `ExecutionException`, so a failure that the cache reports as an unchecked exception would propagate instead.
- Pool.Borrow: without a registered loader for the key, the source's factory passes null on. Without isolation a null loader would be pooled; with isolation the reflective call throws. The model reports a failed creation and leaves the pool as it was before the room-making step. This does not arise for stages whose loader is a library loader.
- Pool.ClearOldest: idle loaders returned in the same millisecond are ordered by identity hash in the source. The model orders them by return order.
- The pool is otherwise modelled by its configured behaviour, not its code. The model does not cover:
  - concurrency;
  - object validation and abandonment;
  - the factory's `wrap`.
- Concurrency is not modelled. This covers the cache's and the pool's thread safety, and concurrent loads of one locale.
- StageLibrary.StageLibraryTask.InitTask: the state after a failed build is not stated. The source leaves it partly built, and the task does not start.
- StageLibrary.StageLibraryTask.InitTask and LoadStages (and `Catalog.Build`) require the configuration chains of every declared stage to be acyclic, not only of the stages the source resolves. For a cyclic stage that `computeDependsOnChain` reaches (line 236), the source loops forever (`NeverStopsOnCycle`). The source never reaches a cyclic stage that comes after a failure: the runtime configuration, a library definition, a resource read, a class load or an extraction, or an earlier duplicate. Nor does it reach a cyclic stage that is itself the rejected second of a duplicate pair. In those cases the source ends with the ordinary error, and the model states nothing about such inputs.
- Configuration trigger values are modelled as strings.
