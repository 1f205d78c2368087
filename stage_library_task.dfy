/**
 * The stage library task: at start-up it resolves class-loader isolation, builds the
 * stage catalog, prepares the per-locale cache of localized stage lists and the pool
 * of private stage class loaders; afterwards it answers stage lookups, hands out and
 * takes back private class loaders, and closes the pool when it stops.
 */
module StageLibrary {
  import opened Wrappers
  import opened Loaders
  import opened DependsOnChain
  import opened Catalog
  import opened Pool

  type Locale = string

  /** What a stage lookup throws. */
  datatype TaskError = NullPointer | PoolFailure(cause: PoolError)

  /** What `getStage` returns (a definition or null), or the exception it throws. */
  datatype StageOutcome = Returned(def: Option<StageDefinition>) | Thrown(error: TaskError)

  /** The runtime's stage-library class loaders, one per library. */
  function LoadersOf(libs: seq<LibraryInput>): (loaders: seq<Loader>)
    ensures |loaders| == |libs| && forall i :: 0 <= i < |libs| ==> loaders[i] == libs[i].loader
  {
    seq(|libs|, i requires 0 <= i < |libs| => libs[i].loader)
  }

  // ---------------------------------------------------------------------------
  // Localized stage lists

  /**
   * What the cache loader computes for a locale: every stage localized, in catalog
   * order, or nothing when localizing some stage fails.
   */
  function LocalizeAll(localize: (StageDefinition, Locale) -> Option<StageDefinition>,
                       stages: seq<StageDefinition>, locale: Locale): (r: Option<seq<StageDefinition>>)
    ensures r.Some? <==> forall i :: 0 <= i < |stages| ==> localize(stages[i], locale).Some?
    ensures r.Some? ==> |r.value| == |stages| &&
                        forall i :: 0 <= i < |stages| ==> r.value[i] == localize(stages[i], locale).value
    decreases |stages|
  {
    if stages == [] then Some([])
    else match LocalizeAll(localize, stages[..|stages| - 1], locale)
      case None => None
      case Some(init) =>
        match localize(stages[|stages| - 1], locale)
        case None => None
        case Some(d) => Some(init + [d])
  }

  /** `CacheLoader.load`: localize the stages one by one, giving up at the first failure. */
  method LoadLocalized(localize: (StageDefinition, Locale) -> Option<StageDefinition>,
                       stages: seq<StageDefinition>, locale: Locale) returns (list: Option<seq<StageDefinition>>)
    ensures list == LocalizeAll(localize, stages, locale)
  {
    var acc: seq<StageDefinition> := [];
    for i := 0 to |stages|
      invariant LocalizeAll(localize, stages[..i], locale) == Some(acc)
    {
      assert stages[..i + 1][..i] == stages[..i];
      var d := localize(stages[i], locale);
      if d.None? {
        return None;
      }
      acc := acc + [d.value];
    }
    assert stages[..|stages|] == stages;
    return Some(acc);
  }

  /**
   * What `getStages` hands out: the catalog list without a locale; with one, the
   * localized list, or the catalog list again when localizing fails.
   */
  function StagesView(localize: (StageDefinition, Locale) -> Option<StageDefinition>,
                      stageList: seq<StageDefinition>, locale: Option<Locale>): (r: seq<StageDefinition>)
    ensures |r| == |stageList|
    ensures locale.None? ==> r == stageList
    ensures locale.Some? && (forall i :: 0 <= i < |stageList| ==> localize(stageList[i], locale.value).Some?) ==>
              forall i :: 0 <= i < |stageList| ==> r[i] == localize(stageList[i], locale.value).value
    ensures locale.Some? && (exists i :: 0 <= i < |stageList| && localize(stageList[i], locale.value).None?) ==>
              r == stageList
  {
    if locale.None? then stageList
    else match LocalizeAll(localize, stageList, locale.value)
      case Some(l) => l
      case None => stageList
  }

  // ---------------------------------------------------------------------------
  // Stage lookups and private class loaders, on the pool's abstract state

  /**
   * `getStageClassLoader`: a stage without a private class loader runs in its own
   * loader; otherwise a loader is borrowed under the key of the stage's loader.
   */
  function StageClassLoaderFor(cfg: PoolConfig, s: PoolState, def: StageDefinition): Result<Borrowed, PoolError>
  {
    if !def.privateClassLoader then Success(Borrowed(def.stageClassLoader, s))
    else Borrow(cfg, s, GetClassLoaderKey(cfg.iso, def.stageClassLoader))
  }

  /** `releaseStageClassLoader`: only a private loader goes back to the pool, under its own key. */
  function ReleaseFor(cfg: PoolConfig, s: PoolState, cl: Loader): Result<PoolState, PoolError>
  {
    if IsPrivateClassLoader(cfg.iso, cl) then Return(cfg, s, GetClassLoaderKey(cfg.iso, cl), cl)
    else Success(s)
  }

  /**
   * `getStage`: the definition under `library:name:version`, or null; asked for
   * execution, an unknown key throws, and a stage with a private class loader gets a
   * copy of its definition carrying a borrowed loader.
   */
  function GetStageFor(stageMap: map<string, StageDefinition>, cfg: PoolConfig, s: PoolState,
                       library: string, name: string, version: string, forExecution: bool): (StageOutcome, PoolState)
  {
    var key := CreateKey(library, name, version);
    if key !in stageMap then (if forExecution then Thrown(NullPointer) else Returned(None), s)
    else if !(forExecution && stageMap[key].privateClassLoader) then (Returned(Some(stageMap[key])), s)
    else match StageClassLoaderFor(cfg, s, stageMap[key])
      case Failure(e) => (Thrown(PoolFailure(e)), s)
      case Success(b) => (Returned(Some(stageMap[key].(stageClassLoader := b.loader))), b.next)
  }

  /**
   * A lookup that is not for execution never touches the pool and returns exactly the
   * catalog entry: the last stage discovered under that key, or null when no stage has
   * it. Asked for execution, an unknown key throws.
   */
  lemma LookupFindsLastDiscovered(runtimeConfigurationFailure: Option<string>, libs: seq<LibraryInput>,
                                  cfg: PoolConfig, s: PoolState, library: string, name: string, version: string)
    requires InputAcyclic(libs)
    requires Build(runtimeConfigurationFailure, libs).Success?
    ensures var cat := Build(runtimeConfigurationFailure, libs).value;
            var found := FoundInLibraries(libs);
            var key := CreateKey(library, name, version);
            var r := GetStageFor(cat.stageMap, cfg, s, library, name, version, false);
            && r.1 == s
            && (r.0 == Returned(None) <==> forall i :: 0 <= i < |found| ==> found[i].key != key)
            && (forall i :: 0 <= i < |found| && found[i].key == key && LastWithKey(found, i) ==>
                  r.0 == Returned(Some(found[i].stage)))
            && ((forall i :: 0 <= i < |found| ==> found[i].key != key) ==>
                  GetStageFor(cat.stageMap, cfg, s, library, name, version, true) == (Thrown(NullPointer), s))
  {
    BuildShape(runtimeConfigurationFailure, libs);
  }

  /**
   * Asked for execution, a stage with a private class loader comes back as its catalog
   * definition with only the loader replaced, by a duplicate of the loader registered
   * under the stage loader's key; the pool keeps its invariant, and with isolation the
   * loader is one no other borrower holds, reports private, and is a pool duplicate:
   * neither the stage's own loader nor any loader the runtime created.
   */
  lemma ExecutionGetsPrivateCopy(stageMap: map<string, StageDefinition>, cfg: PoolConfig, s: PoolState,
                                 library: string, name: string, version: string)
    requires PoolValid(cfg, s)
    requires var key := CreateKey(library, name, version); key in stageMap && stageMap[key].privateClassLoader
    requires GetStageFor(stageMap, cfg, s, library, name, version, true).0.Returned?
    ensures var key := CreateKey(library, name, version);
            var def := stageMap[key];
            var lk := GetClassLoaderKey(cfg.iso, def.stageClassLoader);
            var (r, next) := GetStageFor(stageMap, cfg, s, library, name, version, true);
            && r.def.Some?
            && r.def.value == def.(stageClassLoader := r.def.value.stageClassLoader)
            && lk in cfg.classLoaderMap
            && r.def.value.stageClassLoader ==
                 DuplicateClassLoader(cfg.iso, cfg.classLoaderMap[lk], r.def.value.stageClassLoader.copy)
            && PoolValid(cfg, next)
            && next.active == s.active + multiset{PoolEntry(lk, r.def.value.stageClassLoader)}
            && (cfg.iso.supported ==> forall e :: e in s.active ==> e.loader != r.def.value.stageClassLoader)
            && (cfg.iso.supported ==> !Original(r.def.value.stageClassLoader))
            && (cfg.iso.supported && Original(def.stageClassLoader) ==> r.def.value.stageClassLoader != def.stageClassLoader)
            && (cfg.iso.supported ==> forall k :: k in cfg.classLoaderMap && Original(cfg.classLoaderMap[k]) ==>
                  r.def.value.stageClassLoader != cfg.classLoaderMap[k])
            && (cfg.iso.supported && Original(cfg.iso.container) ==> IsPrivateClassLoader(cfg.iso, r.def.value.stageClassLoader))
  {
    var key := CreateKey(library, name, version);
    var lk := GetClassLoaderKey(cfg.iso, stageMap[key].stageClassLoader);
    BorrowKeepsValid(cfg, s, lk);
    if cfg.iso.supported {
      BorrowedNotInUse(cfg, s, lk);
      var b := Borrow(cfg, s, lk).value;
      assert FromFactory(cfg, b.next, PoolEntry(lk, b.loader));
    }
  }

  /**
   * With isolation, a loader handed out for a private stage reports private, so
   * releasing it sends it back under the same key: the borrowed set is as before,
   * and the next request for the stage gets that very loader back, with no new
   * duplicate.
   */
  lemma ReleaseThenGetReuses(cfg: PoolConfig, loaders: seq<Loader>, s: PoolState, def: StageDefinition)
    requires cfg.iso.supported && Original(cfg.iso.container)
    requires cfg.classLoaderMap == RegisteredLoaders(cfg.iso, loaders)
    requires PoolValid(cfg, s) && !s.closed && def.privateClassLoader
    requires StageClassLoaderFor(cfg, s, def).Success?
    ensures IsPrivateClassLoader(cfg.iso, StageClassLoaderFor(cfg, s, def).value.loader)
    ensures var b := StageClassLoaderFor(cfg, s, def).value;
            && ReleaseFor(cfg, b.next, b.loader).Success?
            && ReleaseFor(cfg, b.next, b.loader).value.active == s.active
            && StageClassLoaderFor(cfg, ReleaseFor(cfg, b.next, b.loader).value, def) == Success(b)
  {
    var b := StageClassLoaderFor(cfg, s, def).value;
    var key := GetClassLoaderKey(cfg.iso, def.stageClassLoader);
    BorrowKeepsValid(cfg, s, key);
    MakeRoomFacts(cfg, s);
    RegisteredUnderOwnKey(cfg.iso, loaders, key);
    assert GetClassLoaderKey(cfg.iso, b.loader) == key;
    assert FromFactory(cfg, b.next, PoolEntry(key, b.loader));
    assert IsPrivateClassLoader(cfg.iso, b.loader);
    ReturnThenBorrow(cfg, b.next, key, b.loader);
    assert b.next.active - multiset{PoolEntry(key, b.loader)} == s.active;
  }

  // ---------------------------------------------------------------------------
  // Repeated executions of one stage

  /** `n` executions of a stage in a row: get its class loader, then release it. */
  function Cycles(cfg: PoolConfig, s: PoolState, def: StageDefinition, n: nat): Result<PoolState, PoolError>
    decreases n
  {
    if n == 0 then Success(s)
    else match StageClassLoaderFor(cfg, s, def)
      case Failure(e) => Failure(e)
      case Success(b) =>
        match ReleaseFor(cfg, b.next, b.loader)
        case Failure(e) => Failure(e)
        case Success(t) => Cycles(cfg, t, def, n - 1)
  }

  /** The top idle loader belongs to `key` and goes back under `key` when released. */
  predicate Recyclable(cfg: PoolConfig, t: PoolState, key: string)
  {
    && !t.closed && |t.idle| > 0 && t.idle[0].key == key
    && IsPrivateClassLoader(cfg.iso, t.idle[0].loader)
    && GetClassLoaderKey(cfg.iso, t.idle[0].loader) == key
  }

  lemma {:induction false} RecycleForever(cfg: PoolConfig, t: PoolState, def: StageDefinition, n: nat)
    requires def.privateClassLoader && Recyclable(cfg, t, GetClassLoaderKey(cfg.iso, def.stageClassLoader))
    ensures Cycles(cfg, t, def, n) == Success(t)
    decreases n
  {
    if n > 0 {
      var key := GetClassLoaderKey(cfg.iso, def.stageClassLoader);
      var e := t.idle[0];
      BorrowReusesIdle(cfg, t, key, 0);
      var next := t.(idle := t.idle[1..], active := t.active + multiset{e});
      assert t.idle[..0] + t.idle[1..] == t.idle[1..];
      assert Borrow(cfg, t, key) == Success(Borrowed(e.loader, next));
      assert [e] + t.idle[1..] == t.idle;
      assert next.active - multiset{e} == t.active;
      assert ReleaseFor(cfg, next, e.loader) == Success(t);
      RecycleForever(cfg, t, def, n - 1);
    }
  }

  /**
   * Once the first execution has left its loader on top of the key's idle stack, the
   * remaining executions reuse it and end in that same state.
   */
  lemma CyclesAfterFirst(cfg: PoolConfig, s: PoolState, def: StageDefinition, n: nat, b: Borrowed, t: PoolState)
    requires n > 0 && def.privateClassLoader
    requires StageClassLoaderFor(cfg, s, def) == Success(b) && ReleaseFor(cfg, b.next, b.loader) == Success(t)
    requires Recyclable(cfg, t, GetClassLoaderKey(cfg.iso, def.stageClassLoader))
    ensures Cycles(cfg, s, def, n) == Success(t)
  {
    RecycleForever(cfg, t, def, n - 1);
  }

  /**
   * The first execution of a private stage under isolation: it succeeds when a loader
   * is idle for the key or one more can be borrowed, adds at most one loader, and
   * leaves the handed-out loader on top of the key's idle stack, ready for reuse.
   */
  lemma FirstCycle(cfg: PoolConfig, loaders: seq<Loader>, s: PoolState, def: StageDefinition)
    requires cfg.iso.supported && Original(cfg.iso.container)
    requires cfg.classLoaderMap == RegisteredLoaders(cfg.iso, loaders)
    requires PoolValid(cfg, s) && !s.closed && def.privateClassLoader
    requires var key := GetClassLoaderKey(cfg.iso, def.stageClassLoader);
             key in cfg.classLoaderMap && (!AllBorrowed(cfg, s) || !NoIdle(s, key))
    ensures StageClassLoaderFor(cfg, s, def).Success?
    ensures var b := StageClassLoaderFor(cfg, s, def).value;
            && ReleaseFor(cfg, b.next, b.loader).Success?
            && var t := ReleaseFor(cfg, b.next, b.loader).value;
               Live(t) <= Live(s) + 1 && Recyclable(cfg, t, GetClassLoaderKey(cfg.iso, def.stageClassLoader))
  {
    var key := GetClassLoaderKey(cfg.iso, def.stageClassLoader);
    BorrowFailsIff(cfg, s, key);
    BorrowKeepsValid(cfg, s, key);
    MakeRoomFacts(cfg, s);
    var b := Borrow(cfg, s, key).value;
    assert Live(b.next) <= Live(s) + 1;
    RegisteredUnderOwnKey(cfg.iso, loaders, key);
    assert GetClassLoaderKey(cfg.iso, b.loader) == key;
    var e := PoolEntry(key, b.loader);
    assert e in b.next.active;
    assert FromFactory(cfg, b.next, e);
    assert IsPrivateClassLoader(cfg.iso, b.loader);
    var t := b.next.(idle := [e] + b.next.idle, active := b.next.active - multiset{e});
    assert ReleaseFor(cfg, b.next, b.loader) == Success(t);
    assert |t.active| + 1 == |b.next.active|;
  }

  /**
   * With isolation, repeated executions of one stage never fail once a first loader
   * exists or can be made, and never hold more than one more loader than before: the
   * first duplicate reports private, goes back on release, and is reused ever after.
   */
  lemma {:induction false} CyclesReuseOneLoader(cfg: PoolConfig, loaders: seq<Loader>, s: PoolState, def: StageDefinition, n: nat)
    requires cfg.iso.supported && Original(cfg.iso.container)
    requires cfg.classLoaderMap == RegisteredLoaders(cfg.iso, loaders)
    requires PoolValid(cfg, s) && !s.closed && def.privateClassLoader
    requires var key := GetClassLoaderKey(cfg.iso, def.stageClassLoader);
             key in cfg.classLoaderMap && (!AllBorrowed(cfg, s) || !NoIdle(s, key))
    ensures Cycles(cfg, s, def, n).Success?
    ensures Live(Cycles(cfg, s, def, n).value) <= Live(s) + 1
  {
    if n > 0 {
      FirstCycle(cfg, loaders, s, def);
      var b := StageClassLoaderFor(cfg, s, def).value;
      var t := ReleaseFor(cfg, b.next, b.loader).value;
      CyclesAfterFirst(cfg, s, def, n, b, t);
    }
  }

  /**
   * Without isolation no loader counts as private, so a loader handed out for a
   * private stage is never given back: when the total allows `k` more borrowed
   * loaders, `k` executions of the stage succeed and the next one finds the pool
   * exhausted.
   */
  lemma {:induction false} CyclesWithoutIsolationExhaust(cfg: PoolConfig, s: PoolState, def: StageDefinition, k: nat)
    requires !cfg.iso.supported && cfg.maxTotal >= 0
    requires PoolValid(cfg, s) && !s.closed && def.privateClassLoader
    requires FallbackKey in cfg.classLoaderMap && NoIdle(s, FallbackKey)
    requires |s.active| + k == cfg.maxTotal
    ensures Cycles(cfg, s, def, k).Success?
    ensures StageClassLoaderFor(cfg, Cycles(cfg, s, def, k).value, def) == Failure(PoolExhausted)
    decreases k
  {
    BorrowFailsIff(cfg, s, FallbackKey);
    if k > 0 {
      BorrowKeepsValid(cfg, s, FallbackKey);
      MakeRoomFacts(cfg, s);
      var b := Borrow(cfg, s, FallbackKey).value;
      assert FirstIdle(s.idle, FallbackKey).None?;
      forall j | 0 <= j < |b.next.idle| ensures b.next.idle[j].key != FallbackKey {
        assert b.next.idle[j] == s.idle[j];
      }
      assert ReleaseFor(cfg, b.next, b.loader) == Success(b.next);
      CyclesWithoutIsolationExhaust(cfg, b.next, def, k - 1);
    }
  }

  /**
   * A stage without a private class loader runs in its own loader. When that loader
   * does not report private (a shared library loader, or any loader without
   * isolation), releasing it is a no-op and any number of executions leave the pool
   * as it was. When it does report private, the pool never lent it out, so with
   * isolation the first release is refused.
   */
  lemma {:induction false} CyclesOwnLoader(cfg: PoolConfig, s: PoolState, def: StageDefinition, n: nat)
    requires !def.privateClassLoader
    ensures StageClassLoaderFor(cfg, s, def) == Success(Borrowed(def.stageClassLoader, s))
    ensures !IsPrivateClassLoader(cfg.iso, def.stageClassLoader) ==>
              ReleaseFor(cfg, s, def.stageClassLoader) == Success(s) && Cycles(cfg, s, def, n) == Success(s)
    ensures && IsPrivateClassLoader(cfg.iso, def.stageClassLoader) && Original(def.stageClassLoader)
            && PoolValid(cfg, s) && n > 0 ==>
              Cycles(cfg, s, def, n) == Failure(NotBorrowed(GetClassLoaderKey(cfg.iso, def.stageClassLoader)))
    decreases n
  {
    var cl := def.stageClassLoader;
    if !IsPrivateClassLoader(cfg.iso, cl) && n > 0 {
      CyclesOwnLoader(cfg, s, def, n - 1);
    }
    if IsPrivateClassLoader(cfg.iso, cl) && Original(cl) && PoolValid(cfg, s) && n > 0 {
      var key := GetClassLoaderKey(cfg.iso, cl);
      assert PoolEntry(key, cl) in s.active ==> FromFactory(cfg, s, PoolEntry(key, cl));
    }
  }

  /**
   * Isolation support, decided by the first stage-library loader alone, fixes how the
   * pool is keyed. Without it every loader has the fallback key, so the factory holds
   * only the last runtime loader, and releasing any loader leaves the pool as it was;
   * with it every runtime loader is registered under its own name.
   */
  lemma IsolationFromFirstLoader(loaders: seq<Loader>, container: Loader, maxTotal: int, s: PoolState, cl: Loader)
    ensures var iso := ResolveIsolation(loaders, container);
            var cfg := PoolConfig(maxTotal, iso, RegisteredLoaders(iso, loaders));
            && iso.container == container
            && (iso.supported <==> |loaders| > 0 && loaders[0].isolating)
            && (!iso.supported ==> ReleaseFor(cfg, s, cl) == Success(s))
            && (!iso.supported && |loaders| > 0 ==> cfg.classLoaderMap == map[FallbackKey := loaders[|loaders| - 1]])
            && (iso.supported ==> forall i :: 0 <= i < |loaders| ==> loaders[i].name in cfg.classLoaderMap)
  {
    var iso := ResolveIsolation(loaders, container);
    var m := RegisteredLoaders(iso, loaders);
    if !iso.supported && |loaders| > 0 {
      forall k | k in m ensures k == FallbackKey {
        LastRegistrationWins(iso, loaders, k);
      }
      LastRegistrationWins(iso, loaders, FallbackKey);
      assert m[FallbackKey] == loaders[|loaders| - 1];
    }
    if iso.supported {
      forall i | 0 <= i < |loaders| ensures loaders[i].name in m {
        LastRegistrationWins(iso, loaders, loaders[i].name);
      }
    }
  }

  // ---------------------------------------------------------------------------
  // The task object

  class StageLibraryTask {
    // Inputs: the runtime's libraries, the outcome of loading the runtime configuration,
    // the configured pool total, the container's own loader and stage localization.
    const libraries: seq<LibraryInput>
    const runtimeConfigurationFailure: Option<string>
    const configuredMaxPrivate: Option<int>
    const container: Loader
    const localize: (StageDefinition, Locale) -> Option<StageDefinition>

    var iso: Isolation
    var stageList: seq<StageDefinition>
    var stageMap: map<string, StageDefinition>
    var localizedStageList: map<Locale, seq<StageDefinition>>
    var poolConfig: PoolConfig
    var pool: PoolState

    /**
     * The state after a successful start: the catalog is the build's, the pool is set
     * up as configured and keeps its invariant, and every cached list is the localized
     * catalog list.
     */
    ghost predicate Valid()
      reads this
    {
      CatalogBuilt() && PoolConfigured() && PoolValid(poolConfig, pool) && CacheLocalized()
    }

    /** The catalog is what the build of the libraries gives. */
    ghost predicate CatalogBuilt()
      reads this`stageList, this`stageMap
    {
      && InputAcyclic(libraries)
      && Build(runtimeConfigurationFailure, libraries) == Success(Catalog(stageList, stageMap))
    }

    /**
     * The runtime's loaders are originals, isolation comes from the first library
     * loader, and the pool is set up as configured.
     */
    ghost predicate PoolConfigured()
      reads this`iso, this`poolConfig
    {
      && RuntimeLoadersOriginal()
      && iso == ResolveIsolation(LoadersOf(libraries), container)
      && poolConfig == PoolConfig(MaxTotal(configuredMaxPrivate), iso, RegisteredLoaders(iso, LoadersOf(libraries)))
    }

    /** The container's loader and every library loader were created by the runtime. */
    predicate RuntimeLoadersOriginal()
    {
      Original(container) && forall i :: 0 <= i < |libraries| ==> Original(libraries[i].loader)
    }

    /** Every cached list is the localized catalog list. */
    ghost predicate CacheLocalized()
      reads this`stageList, this`localizedStageList
    {
      forall l :: l in localizedStageList ==> LocalizeAll(localize, stageList, l) == Some(localizedStageList[l])
    }

    constructor (libraries: seq<LibraryInput>, runtimeConfigurationFailure: Option<string>,
                 configuredMaxPrivate: Option<int>, container: Loader,
                 localize: (StageDefinition, Locale) -> Option<StageDefinition>)
      ensures this.libraries == libraries && this.runtimeConfigurationFailure == runtimeConfigurationFailure
      ensures this.configuredMaxPrivate == configuredMaxPrivate && this.container == container
      ensures this.localize == localize
      ensures stageList == [] && stageMap == map[] && localizedStageList == map[] && pool == EmptyPool
    {
      this.libraries := libraries;
      this.runtimeConfigurationFailure := runtimeConfigurationFailure;
      this.configuredMaxPrivate := configuredMaxPrivate;
      this.container := container;
      this.localize := localize;
      iso := Isolation(false, container);
      stageList := [];
      stageMap := map[];
      localizedStageList := map[];
      poolConfig := PoolConfig(MaxPrivateStageClassLoadersDefault, Isolation(false, container), map[]);
      pool := EmptyPool;
    }

    /**
     * `initTask`: resolve isolation from the first library loader, build the catalog,
     * start with an empty localization cache and an empty pool bounded by the
     * configured total. Fails exactly as the build fails.
     */
    method InitTask() returns (err: Option<BuildError>)
      requires InputAcyclic(libraries) && RuntimeLoadersOriginal()
      modifies this
      ensures err.None? <==> Build(runtimeConfigurationFailure, libraries).Success?
      ensures err.Some? ==> Build(runtimeConfigurationFailure, libraries) == Failure(err.value)
      ensures err.None? ==> Valid() && localizedStageList == map[] && pool == EmptyPool
      ensures err.None? ==> poolConfig.maxTotal == MaxTotal(configuredMaxPrivate)
    {
      var loaders := LoadersOf(libraries);
      iso := ResolveIsolation(loaders, container);
      stageList := [];
      stageMap := map[];
      err := LoadStages();
      if err.Some? {
        return;
      }
      localizedStageList := map[];
      var classLoaderMap := BuildClassLoaderMap(iso, loaders);
      poolConfig := PoolConfig(MaxTotal(configuredMaxPrivate), iso, classLoaderMap);
      pool := EmptyPool;
      EmptyPoolValid(poolConfig);
    }

    /**
     * `loadStages`: walk the libraries, their manifests and their classes in order,
     * checking each manifest for duplicate keys, resolving each stage's dependency
     * chains and appending it to the list and the map.
     */
    method LoadStages() returns (err: Option<BuildError>)
      requires InputAcyclic(libraries)
      requires stageList == [] && stageMap == map[]
      modifies this`stageList, this`stageMap
      ensures err.None? ==> Build(runtimeConfigurationFailure, libraries) == Success(Catalog(stageList, stageMap))
      ensures err.Some? ==> Build(runtimeConfigurationFailure, libraries) == Failure(err.value)
    {
      if runtimeConfigurationFailure.Some? {
        return Some(RuntimeConfigurationError(runtimeConfigurationFailure.value));
      }
      var libs := libraries;
      ghost var goal := LoadLibraries(libs, EmptyCatalog);
      assert libs[0..] == libs;
      var li := 0;
      while li < |libs|
        invariant 0 <= li <= |libs|
        invariant goal == LoadLibraries(libs[li..], Catalog(stageList, stageMap))
      {
        var lib := libs[li];
        assert LibraryAcyclic(lib);
        assert libs[li..][0] == lib && libs[li..][1..] == libs[li + 1..];
        if lib.definition.Failure? {
          return Some(LibraryDefinitionError(lib.definition.error));
        }
        var libraryName := lib.definition.value;
        if lib.resources.Failure? {
          return Some(StagesDefinitionError(lib.loader, lib.resources.error));
        }
        var resources := lib.resources.value;
        assert resources[0..] == resources;
        var mi := 0;
        while mi < |resources|
          invariant 0 <= mi <= |resources|
          invariant goal == ThenLibraries(LoadManifests(libraryName, lib.loader, resources[mi..], Catalog(stageList, stageMap)), libs[li + 1..])
        {
          assert ManifestAcyclic(resources[mi]);
          assert resources[mi..][0] == resources[mi] && resources[mi..][1..] == resources[mi + 1..];
          if resources[mi].Unreadable? {
            return Some(StagesDefinitionError(lib.loader, resources[mi].reason));
          }
          var classes := resources[mi].stageClasses;
          var stagesInLibrary: map<string, string> := map[];
          assert classes[0..] == classes;
          var ci := 0;
          while ci < |classes|
            invariant 0 <= ci <= |classes|
            invariant goal == ThenLibraries(ThenManifests(LoadClasses(libraryName, lib.loader, classes[ci..], stagesInLibrary, Catalog(stageList, stageMap)),
                                                          libraryName, lib.loader, resources[mi + 1..]), libs[li + 1..])
          {
            assert OutcomeAcyclic(classes[ci]);
            assert classes[ci..][0] == classes[ci] && classes[ci..][1..] == classes[ci + 1..];
            match classes[ci]
            case ClassNotFound(className) =>
              return Some(StagesDefinitionError(lib.loader, className));
            case ExtractionFailed(reason) =>
              return Some(ExtractionError(reason));
            case Extracted(stage) =>
              var key := CreateKey(libraryName, stage.name, stage.version);
              if key in stagesInLibrary {
                return Some(DuplicateStage(libraryName, key, stagesInLibrary[key], stage.className));
              }
              stagesInLibrary := stagesInLibrary[key := stage.className];
              var configs := ComputeDependsOnChain(stage.configDefinitionsMap);
              var resolvedStage := stage.(configDefinitionsMap := configs);
              stageList := stageList + [resolvedStage];
              stageMap := stageMap[key := resolvedStage];
              ci := ci + 1;
          }
          assert classes[ci..] == [];
          mi := mi + 1;
        }
        assert resources[mi..] == [];
        li := li + 1;
      }
      assert libs[li..] == [];
      return None;
    }

    /**
     * `getStages`: the stage list for the caller's locale, served from the cache when
     * it holds the locale; a failed localization is not cached and falls back to the
     * catalog list.
     */
    method GetStages(locale: Option<Locale>) returns (stages: seq<StageDefinition>)
      requires Valid()
      modifies this`localizedStageList
      ensures Valid()
      ensures stages == StagesView(localize, stageList, locale)
      ensures localizedStageList ==
                if locale.Some? && LocalizeAll(localize, stageList, locale.value).Some?
                then old(localizedStageList)[locale.value := stages]
                else old(localizedStageList)
    {
      if locale.None? {
        return stageList;
      }
      var l := locale.value;
      if l in localizedStageList {
        stages := localizedStageList[l];
        assert localizedStageList[l := stages] == localizedStageList;
        return;
      }
      var loaded := LoadLocalized(localize, stageList, l);
      if loaded.None? {
        return stageList;
      }
      localizedStageList := localizedStageList[l := loaded.value];
      return loaded.value;
    }

    /** `getStage`, on the task's catalog and pool. */
    method GetStage(library: string, name: string, version: string, forExecution: bool) returns (r: StageOutcome)
      requires Valid()
      modifies this`pool
      ensures Valid()
      ensures (r, pool) == GetStageFor(stageMap, poolConfig, old(pool), library, name, version, forExecution)
    {
      var key := CreateKey(library, name, version);
      if key !in stageMap {
        if forExecution {
          return Thrown(NullPointer);
        }
        return Returned(None);
      }
      var def := stageMap[key];
      if forExecution && def.privateClassLoader {
        var cl := GetStageClassLoader(def);
        if cl.Failure? {
          return Thrown(PoolFailure(cl.error));
        }
        def := def.(stageClassLoader := cl.value);
      }
      return Returned(Some(def));
    }

    /** `getStageClassLoader`: borrow from the pool for a stage with a private class loader. */
    method GetStageClassLoader(def: StageDefinition) returns (r: Result<Loader, PoolError>)
      requires Valid()
      modifies this`pool
      ensures Valid()
      ensures var o := StageClassLoaderFor(poolConfig, old(pool), def);
              && (o.Success? ==> r == Success(o.value.loader) && pool == o.value.next)
              && (o.Failure? ==> r == Failure(o.error) && pool == old(pool))
    {
      if !def.privateClassLoader {
        return Success(def.stageClassLoader);
      }
      var key := GetClassLoaderKey(iso, def.stageClassLoader);
      var b := Borrow(poolConfig, pool, key);
      if b.Failure? {
        return Failure(b.error);
      }
      BorrowKeepsValid(poolConfig, pool, key);
      pool := b.value.next;
      return Success(b.value.loader);
    }

    /** `releaseStageClassLoader`: give a private loader back; a refused return is reported. */
    method ReleaseStageClassLoader(cl: Loader) returns (err: Option<PoolError>)
      requires Valid()
      modifies this`pool
      ensures Valid()
      ensures var o := ReleaseFor(poolConfig, old(pool), cl);
              && (o.Success? ==> err == None && pool == o.value)
              && (o.Failure? ==> err == Some(o.error) && pool == old(pool))
    {
      if !IsPrivateClassLoader(iso, cl) {
        return None;
      }
      var key := GetClassLoaderKey(iso, cl);
      var o := Return(poolConfig, pool, key, cl);
      if o.Failure? {
        return Some(o.error);
      }
      ReturnKeepsValid(poolConfig, pool, key, cl);
      pool := o.value;
      return None;
    }

    /** `stopTask`: close the pool; borrowed loaders stay with their holders. */
    method StopTask()
      requires Valid()
      modifies this`pool
      ensures Valid()
      ensures pool == Close(old(pool))
    {
      CloseFacts(poolConfig, pool, FallbackKey);
      pool := Close(pool);
    }
  }
}
