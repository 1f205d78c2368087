/**
 * The stage catalog built at start-up: for every library, every manifest resource and
 * every class it names, the stage definition is extracted, keyed by
 * `library:name:version`, checked for duplicates within its resource, resolved, and
 * appended to the ordered list and put into the keyed map (last one in wins).
 *
 * Extraction, class loading and manifest reading are inputs: each library arrives
 * with its definition, its manifests and, per class name, what extraction produced.
 */
module Catalog {
  import opened Wrappers
  import opened Loaders
  import opened DependsOnChain

  /** A stage definition, as far as the catalog and the pool look at it. */
  datatype StageDefinition = StageDefinition(
    library: string,
    name: string,
    version: string,
    className: string,
    configDefinitionsMap: Fields,
    privateClassLoader: bool,
    stageClassLoader: Loader)

  /** What loading and extracting one declared class produced. */
  datatype ClassOutcome =
    | Extracted(stage: StageDefinition)
    | ClassNotFound(className: string)
    | ExtractionFailed(reason: string)

  /** One manifest resource: its `stageClasses` list, or the I/O failure reading it. */
  datatype Manifest = Manifest(stageClasses: seq<ClassOutcome>) | Unreadable(reason: string)

  /**
   * One stage library: its class loader, the library definition extracted from it
   * (its name) or the extraction failure, and its manifest resources or the failure
   * enumerating them.
   */
  datatype LibraryInput = LibraryInput(
    loader: Loader,
    definition: Result<string, string>,
    resources: Result<seq<Manifest>, string>)

  /** Every way the build aborts; there is no partial catalog. */
  datatype BuildError =
    | RuntimeConfigurationError(reason: string)
    | LibraryDefinitionError(reason: string)
    | StagesDefinitionError(loader: Loader, reason: string)
    | ExtractionError(reason: string)
    | DuplicateStage(library: string, key: string, firstClass: string, secondClass: string)

  /** The ordered stage list and the keyed stage map. */
  datatype Catalog = Catalog(stageList: seq<StageDefinition>, stageMap: map<string, StageDefinition>)

  const EmptyCatalog: Catalog := Catalog([], map[])

  /** `createKey`: the identity key of a stage. */
  function CreateKey(library: string, name: string, version: string): string
  {
    library + ":" + name + ":" + version
  }

  function KeyOf(library: string, stage: StageDefinition): string
  {
    CreateKey(library, stage.name, stage.version)
  }

  // ---------------------------------------------------------------------------
  // Well-formed input: every extracted stage's configuration chains stop

  predicate OutcomeAcyclic(o: ClassOutcome)
  {
    o.Extracted? ==> Acyclic(o.stage.configDefinitionsMap)
  }

  predicate ClassesAcyclic(classes: seq<ClassOutcome>)
  {
    forall i :: 0 <= i < |classes| ==> OutcomeAcyclic(classes[i])
  }

  predicate ManifestAcyclic(m: Manifest)
  {
    m.Manifest? ==> ClassesAcyclic(m.stageClasses)
  }

  predicate ManifestsAcyclic(ms: seq<Manifest>)
  {
    forall i :: 0 <= i < |ms| ==> ManifestAcyclic(ms[i])
  }

  predicate LibraryAcyclic(lib: LibraryInput)
  {
    lib.resources.Success? ==> ManifestsAcyclic(lib.resources.value)
  }

  predicate InputAcyclic(libs: seq<LibraryInput>)
  {
    forall i :: 0 <= i < |libs| ==> LibraryAcyclic(libs[i])
  }

  /** The stage after `computeDependsOnChain` has written every field's chain. */
  function ResolveStage(stage: StageDefinition): StageDefinition
    requires Acyclic(stage.configDefinitionsMap)
  {
    stage.(configDefinitionsMap := ResolvedConfigs(stage.configDefinitionsMap))
  }

  // ---------------------------------------------------------------------------
  // The build, in the order `loadStages` runs it

  /** The classes of one manifest; `seen` maps keys met in this manifest to their class. */
  function LoadClasses(library: string, loader: Loader, classes: seq<ClassOutcome>,
                       seen: map<string, string>, cat: Catalog): Result<Catalog, BuildError>
    requires ClassesAcyclic(classes)
    decreases |classes|
  {
    if classes == [] then Success(cat)
    else match classes[0]
      case ClassNotFound(c) => Failure(StagesDefinitionError(loader, c))
      case ExtractionFailed(r) => Failure(ExtractionError(r))
      case Extracted(stage) =>
        var key := KeyOf(library, stage);
        if key in seen then Failure(DuplicateStage(library, key, seen[key], stage.className))
        else
          var s := ResolveStage(stage);
          LoadClasses(library, loader, classes[1..], seen[key := stage.className],
                      Catalog(cat.stageList + [s], cat.stageMap[key := s]))
  }

  /** The manifests of one library; each starts with an empty duplicate check. */
  function LoadManifests(library: string, loader: Loader, manifests: seq<Manifest>, cat: Catalog): Result<Catalog, BuildError>
    requires ManifestsAcyclic(manifests)
    decreases |manifests|, 0
  {
    if manifests == [] then Success(cat)
    else match manifests[0]
      case Unreadable(r) => Failure(StagesDefinitionError(loader, r))
      case Manifest(classes) =>
        assert ManifestAcyclic(manifests[0]);
        ThenManifests(LoadClasses(library, loader, classes, map[], cat), library, loader, manifests[1..])
  }

  function ThenManifests(r: Result<Catalog, BuildError>, library: string, loader: Loader, manifests: seq<Manifest>): Result<Catalog, BuildError>
    requires ManifestsAcyclic(manifests)
    decreases |manifests|, 1
  {
    match r
    case Failure(e) => Failure(e)
    case Success(cat) => LoadManifests(library, loader, manifests, cat)
  }

  function LoadLibraries(libs: seq<LibraryInput>, cat: Catalog): Result<Catalog, BuildError>
    requires InputAcyclic(libs)
    decreases |libs|, 0
  {
    if libs == [] then Success(cat)
    else
      assert LibraryAcyclic(libs[0]);
      match libs[0].definition
      case Failure(r) => Failure(LibraryDefinitionError(r))
      case Success(name) =>
        match libs[0].resources
        case Failure(r) => Failure(StagesDefinitionError(libs[0].loader, r))
        case Success(manifests) =>
          ThenLibraries(LoadManifests(name, libs[0].loader, manifests, cat), libs[1..])
  }

  function ThenLibraries(r: Result<Catalog, BuildError>, libs: seq<LibraryInput>): Result<Catalog, BuildError>
    requires InputAcyclic(libs)
    decreases |libs|, 1
  {
    match r
    case Failure(e) => Failure(e)
    case Success(cat) => LoadLibraries(libs, cat)
  }

  /** `loadStages` from an empty catalog, after loading the runtime configuration. */
  function Build(runtimeConfigurationFailure: Option<string>, libs: seq<LibraryInput>): Result<Catalog, BuildError>
    requires InputAcyclic(libs)
  {
    match runtimeConfigurationFailure
    case Some(r) => Failure(RuntimeConfigurationError(r))
    case None => LoadLibraries(libs, EmptyCatalog)
  }

  // ---------------------------------------------------------------------------
  // Reference view: the stages in discovery order

  /** A discovered stage with its key, as it is appended (resolved). */
  datatype Found = Found(key: string, stage: StageDefinition)

  function FoundIn(library: string, classes: seq<ClassOutcome>): seq<Found>
    requires ClassesAcyclic(classes)
    decreases |classes|
  {
    if classes == [] then []
    else
      (if classes[0].Extracted?
       then [Found(KeyOf(library, classes[0].stage), ResolveStage(classes[0].stage))]
       else [])
      + FoundIn(library, classes[1..])
  }

  function FoundInManifests(library: string, manifests: seq<Manifest>): seq<Found>
    requires ManifestsAcyclic(manifests)
    decreases |manifests|
  {
    if manifests == [] then []
    else
      assert ManifestAcyclic(manifests[0]);
      (if manifests[0].Manifest? then FoundIn(library, manifests[0].stageClasses) else [])
      + FoundInManifests(library, manifests[1..])
  }

  function FoundInLibraries(libs: seq<LibraryInput>): seq<Found>
    requires InputAcyclic(libs)
    decreases |libs|
  {
    if libs == [] then []
    else
      assert LibraryAcyclic(libs[0]);
      (if libs[0].definition.Success? && libs[0].resources.Success?
       then FoundInManifests(libs[0].definition.value, libs[0].resources.value)
       else [])
      + FoundInLibraries(libs[1..])
  }

  /** The number of class names the manifests declare. */
  function ClassCount(libs: seq<LibraryInput>): nat
    decreases |libs|
  {
    if libs == [] then 0
    else
      (if libs[0].resources.Success? then ManifestClassCount(libs[0].resources.value) else 0)
      + ClassCount(libs[1..])
  }

  function ManifestClassCount(manifests: seq<Manifest>): nat
    decreases |manifests|
  {
    if manifests == [] then 0
    else
      (if manifests[0].Manifest? then |manifests[0].stageClasses| else 0)
      + ManifestClassCount(manifests[1..])
  }

  function StagesOf(found: seq<Found>): seq<StageDefinition>
  {
    seq(|found|, i requires 0 <= i < |found| => found[i].stage)
  }

  /** Putting every found stage under its key, in order. */
  function PutAll(m: map<string, StageDefinition>, found: seq<Found>): map<string, StageDefinition>
    decreases |found|
  {
    if found == [] then m else PutAll(m[found[0].key := found[0].stage], found[1..])
  }

  /** Index `i` is the last entry of `found` with its key. */
  predicate LastWithKey(found: seq<Found>, i: int)
    requires 0 <= i < |found|
  {
    forall j :: i < j < |found| ==> found[j].key != found[i].key
  }

  // ---------------------------------------------------------------------------
  // What a successful build holds

  lemma AppendAssociates(x: seq<StageDefinition>, y: seq<StageDefinition>, z: seq<StageDefinition>)
    ensures (x + y) + z == x + (y + z)
  {
  }

  lemma StagesOfAppend(a: seq<Found>, b: seq<Found>)
    ensures StagesOf(a + b) == StagesOf(a) + StagesOf(b)
  {
    assert forall i :: 0 <= i < |a + b| ==> StagesOf(a + b)[i] == (StagesOf(a) + StagesOf(b))[i];
  }

  lemma {:induction false} PutAllAppend(m: map<string, StageDefinition>, a: seq<Found>, b: seq<Found>)
    ensures PutAll(m, a + b) == PutAll(PutAll(m, a), b)
    decreases |a|
  {
    if a == [] {
      assert a + b == b;
    } else {
      assert (a + b)[0] == a[0] && (a + b)[1..] == a[1..] + b;
      PutAllAppend(m[a[0].key := a[0].stage], a[1..], b);
    }
  }

  /**
   * The keyed map is "last one in wins": a key is present exactly when it was in the
   * starting map or some entry has it, the last entry with a key is what the map
   * holds, and keys no entry has keep their old value.
   */
  lemma {:induction false} PutAllLastWins(m: map<string, StageDefinition>, found: seq<Found>)
    ensures forall k :: k in PutAll(m, found) <==> k in m || exists i :: 0 <= i < |found| && found[i].key == k
    ensures forall i :: 0 <= i < |found| && LastWithKey(found, i) ==> PutAll(m, found)[found[i].key] == found[i].stage
    ensures forall k :: k in m && (forall i :: 0 <= i < |found| ==> found[i].key != k) ==> PutAll(m, found)[k] == m[k]
    decreases |found|
  {
    if found != [] {
      var tail := found[1..];
      var m' := m[found[0].key := found[0].stage];
      PutAllLastWins(m', tail);
      assert PutAll(m, found) == PutAll(m', tail);
      forall k | k in PutAll(m, found)
        ensures k in m || exists i :: 0 <= i < |found| && found[i].key == k
      {
        if k !in m && k != found[0].key {
          var i :| 0 <= i < |tail| && tail[i].key == k;
          assert found[i + 1].key == k;
        }
      }
      forall k | (exists i :: 0 <= i < |found| && found[i].key == k)
        ensures k in PutAll(m, found)
      {
        var i :| 0 <= i < |found| && found[i].key == k;
        if i > 0 { assert tail[i - 1].key == k; }
      }
      forall i | 0 <= i < |found| && LastWithKey(found, i)
        ensures PutAll(m, found)[found[i].key] == found[i].stage
      {
        if i > 0 {
          assert tail[i - 1] == found[i];
          assert LastWithKey(tail, i - 1) by {
            forall j | i - 1 < j < |tail| ensures tail[j].key != tail[i - 1].key {
              assert tail[j] == found[j + 1];
            }
          }
        } else {
          forall j | 0 <= j < |tail| ensures tail[j].key != found[0].key {
            assert tail[j] == found[j + 1];
          }
        }
      }
      forall k | k in m && (forall i :: 0 <= i < |found| ==> found[i].key != k)
        ensures PutAll(m, found)[k] == m[k]
      {
        forall i | 0 <= i < |tail| ensures tail[i].key != k {
          assert tail[i] == found[i + 1];
        }
      }
    }
  }

  /** A run over classes that succeeds took the first one as an extracted, new stage. */
  lemma LoadClassesStep(library: string, loader: Loader, classes: seq<ClassOutcome>,
                        seen: map<string, string>, cat: Catalog)
    requires ClassesAcyclic(classes) && classes != []
    requires LoadClasses(library, loader, classes, seen, cat).Success?
    ensures classes[0].Extracted? && KeyOf(library, classes[0].stage) !in seen
    ensures Acyclic(classes[0].stage.configDefinitionsMap) && ClassesAcyclic(classes[1..])
    ensures var stage := classes[0].stage;
            var key := KeyOf(library, stage);
            var s := ResolveStage(stage);
            && LoadClasses(library, loader, classes, seen, cat)
                 == LoadClasses(library, loader, classes[1..], seen[key := stage.className],
                                Catalog(cat.stageList + [s], cat.stageMap[key := s]))
            && FoundIn(library, classes) == [Found(key, s)] + FoundIn(library, classes[1..])
  {
    assert OutcomeAcyclic(classes[0]);
  }

  lemma {:induction false} LoadClassesShape(library: string, loader: Loader, classes: seq<ClassOutcome>,
                                            seen: map<string, string>, cat: Catalog)
    requires ClassesAcyclic(classes)
    requires LoadClasses(library, loader, classes, seen, cat).Success?
    ensures var c := LoadClasses(library, loader, classes, seen, cat).value;
            && c.stageList == cat.stageList + StagesOf(FoundIn(library, classes))
            && c.stageMap == PutAll(cat.stageMap, FoundIn(library, classes))
            && |FoundIn(library, classes)| == |classes|
    decreases |classes|
  {
    if classes != [] {
      LoadClassesStep(library, loader, classes, seen, cat);
      var stage := classes[0].stage;
      var key := KeyOf(library, stage);
      var s := ResolveStage(stage);
      var cat' := Catalog(cat.stageList + [s], cat.stageMap[key := s]);
      var rest := FoundIn(library, classes[1..]);
      var c := LoadClasses(library, loader, classes[1..], seen[key := stage.className], cat').value;
      assert c.stageList == cat'.stageList + StagesOf(rest) && c.stageMap == PutAll(cat'.stageMap, rest)
             && |rest| == |classes[1..]| by {
        LoadClassesShape(library, loader, classes[1..], seen[key := stage.className], cat');
      }
      StagesOfAppend([Found(key, s)], rest);
      assert StagesOf([Found(key, s)]) == [s];
      AppendAssociates(cat.stageList, [s], StagesOf(rest));
    }
  }

  /** A run over manifests that succeeds read the first one and loaded its classes. */
  lemma LoadManifestsStep(library: string, loader: Loader, manifests: seq<Manifest>, cat: Catalog)
    requires ManifestsAcyclic(manifests) && manifests != []
    requires LoadManifests(library, loader, manifests, cat).Success?
    ensures manifests[0].Manifest? && ClassesAcyclic(manifests[0].stageClasses) && ManifestsAcyclic(manifests[1..])
    ensures var classes := manifests[0].stageClasses;
            && LoadClasses(library, loader, classes, map[], cat).Success?
            && LoadManifests(library, loader, manifests, cat)
                 == LoadManifests(library, loader, manifests[1..], LoadClasses(library, loader, classes, map[], cat).value)
            && FoundInManifests(library, manifests) == FoundIn(library, classes) + FoundInManifests(library, manifests[1..])
            && ManifestClassCount(manifests) == |classes| + ManifestClassCount(manifests[1..])
  {
    assert ManifestAcyclic(manifests[0]);
  }

  lemma {:induction false} LoadManifestsShape(library: string, loader: Loader, manifests: seq<Manifest>, cat: Catalog)
    requires ManifestsAcyclic(manifests)
    requires LoadManifests(library, loader, manifests, cat).Success?
    ensures var c := LoadManifests(library, loader, manifests, cat).value;
            && c.stageList == cat.stageList + StagesOf(FoundInManifests(library, manifests))
            && c.stageMap == PutAll(cat.stageMap, FoundInManifests(library, manifests))
            && |FoundInManifests(library, manifests)| == ManifestClassCount(manifests)
    decreases |manifests|
  {
    if manifests != [] {
      LoadManifestsStep(library, loader, manifests, cat);
      var classes := manifests[0].stageClasses;
      var mid := LoadClasses(library, loader, classes, map[], cat).value;
      var a := FoundIn(library, classes);
      var b := FoundInManifests(library, manifests[1..]);
      var c := LoadManifests(library, loader, manifests[1..], mid).value;
      assert mid.stageList == cat.stageList + StagesOf(a) && mid.stageMap == PutAll(cat.stageMap, a)
             && |a| == |classes| by {
        LoadClassesShape(library, loader, classes, map[], cat);
      }
      assert c.stageList == mid.stageList + StagesOf(b) && c.stageMap == PutAll(mid.stageMap, b)
             && |b| == ManifestClassCount(manifests[1..]) by {
        LoadManifestsShape(library, loader, manifests[1..], mid);
      }
      PutAllAppend(cat.stageMap, a, b);
      StagesOfAppend(a, b);
      AppendAssociates(cat.stageList, StagesOf(a), StagesOf(b));
    }
  }

  /** A build that succeeds took its first library whole, and the rest from there. */
  lemma LoadLibrariesStep(libs: seq<LibraryInput>, cat: Catalog)
    requires InputAcyclic(libs) && libs != []
    requires LoadLibraries(libs, cat).Success?
    ensures libs[0].definition.Success? && libs[0].resources.Success?
    ensures ManifestsAcyclic(libs[0].resources.value) && InputAcyclic(libs[1..])
    ensures var name, manifests := libs[0].definition.value, libs[0].resources.value;
            && LoadManifests(name, libs[0].loader, manifests, cat).Success?
            && LoadLibraries(libs, cat) == LoadLibraries(libs[1..], LoadManifests(name, libs[0].loader, manifests, cat).value)
            && FoundInLibraries(libs) == FoundInManifests(name, manifests) + FoundInLibraries(libs[1..])
            && ClassCount(libs) == ManifestClassCount(manifests) + ClassCount(libs[1..])
  {
    assert LibraryAcyclic(libs[0]);
  }

  lemma {:induction false} LoadLibrariesShape(libs: seq<LibraryInput>, cat: Catalog)
    requires InputAcyclic(libs)
    requires LoadLibraries(libs, cat).Success?
    ensures var c := LoadLibraries(libs, cat).value;
            && c.stageList == cat.stageList + StagesOf(FoundInLibraries(libs))
            && c.stageMap == PutAll(cat.stageMap, FoundInLibraries(libs))
            && |FoundInLibraries(libs)| == ClassCount(libs)
    decreases |libs|
  {
    if libs != [] {
      LoadLibrariesStep(libs, cat);
      var name := libs[0].definition.value;
      var manifests := libs[0].resources.value;
      var mid := LoadManifests(name, libs[0].loader, manifests, cat).value;
      var a := FoundInManifests(name, manifests);
      var b := FoundInLibraries(libs[1..]);
      var c := LoadLibraries(libs[1..], mid).value;
      assert mid.stageList == cat.stageList + StagesOf(a) && mid.stageMap == PutAll(cat.stageMap, a)
             && |a| == ManifestClassCount(manifests) by {
        LoadManifestsShape(name, libs[0].loader, manifests, cat);
      }
      assert c.stageList == mid.stageList + StagesOf(b) && c.stageMap == PutAll(mid.stageMap, b)
             && |b| == ClassCount(libs[1..]) by {
        LoadLibrariesShape(libs[1..], mid);
      }
      PutAllAppend(cat.stageMap, a, b);
      StagesOfAppend(a, b);
      AppendAssociates(cat.stageList, StagesOf(a), StagesOf(b));
    }
  }

  /**
   * Catalog shape: the list holds every declared stage, resolved, in discovery order
   * (as many as there are class names), and the map holds under each key the LAST
   * stage appended with that key.
   */
  lemma BuildShape(runtimeConfigurationFailure: Option<string>, libs: seq<LibraryInput>)
    requires InputAcyclic(libs)
    requires Build(runtimeConfigurationFailure, libs).Success?
    ensures var c := Build(runtimeConfigurationFailure, libs).value;
            var found := FoundInLibraries(libs);
            && c.stageList == StagesOf(found)
            && |c.stageList| == ClassCount(libs)
            && (forall k :: k in c.stageMap <==> exists i :: 0 <= i < |found| && found[i].key == k)
            && (forall i :: 0 <= i < |found| && LastWithKey(found, i) ==> c.stageMap[found[i].key] == c.stageList[i])
  {
    LoadLibrariesShape(libs, EmptyCatalog);
    PutAllLastWins(map[], FoundInLibraries(libs));
  }

  // ---------------------------------------------------------------------------
  // When the build succeeds, and what a duplicate error names

  /** Every class was extracted, and its key is neither in `seen` nor repeated. */
  predicate ClassesLoadable(library: string, classes: seq<ClassOutcome>, seen: map<string, string>)
  {
    && (forall i :: 0 <= i < |classes| ==> classes[i].Extracted?)
    && (forall i :: 0 <= i < |classes| ==> KeyOf(library, classes[i].stage) !in seen)
    && (forall i, j :: 0 <= i < j < |classes| ==> KeyOf(library, classes[i].stage) != KeyOf(library, classes[j].stage))
  }

  predicate ManifestLoadable(library: string, m: Manifest)
  {
    m.Manifest? && ClassesLoadable(library, m.stageClasses, map[])
  }

  predicate LibraryLoadable(lib: LibraryInput)
  {
    && lib.definition.Success?
    && lib.resources.Success?
    && forall j :: 0 <= j < |lib.resources.value| ==> ManifestLoadable(lib.definition.value, lib.resources.value[j])
  }

  lemma {:induction false} LoadClassesSucceedsIff(library: string, loader: Loader, classes: seq<ClassOutcome>,
                                                   seen: map<string, string>, cat: Catalog)
    requires ClassesAcyclic(classes)
    ensures LoadClasses(library, loader, classes, seen, cat).Success? <==> ClassesLoadable(library, classes, seen)
    decreases |classes|
  {
    if classes != [] && classes[0].Extracted? {
      var stage := classes[0].stage;
      var key := KeyOf(library, stage);
      var tail := classes[1..];
      if key !in seen {
        var s := ResolveStage(stage);
        var seen' := seen[key := stage.className];
        LoadClassesSucceedsIff(library, loader, tail, seen', Catalog(cat.stageList + [s], cat.stageMap[key := s]));
        if ClassesLoadable(library, classes, seen) {
          forall i | 0 <= i < |tail| ensures KeyOf(library, tail[i].stage) !in seen' {
            assert tail[i] == classes[i + 1];
          }
          forall i, j | 0 <= i < j < |tail|
            ensures KeyOf(library, tail[i].stage) != KeyOf(library, tail[j].stage)
          {
            assert tail[i] == classes[i + 1] && tail[j] == classes[j + 1];
          }
        }
        if ClassesLoadable(library, tail, seen') {
          forall i | 0 <= i < |classes| ensures classes[i].Extracted? && KeyOf(library, classes[i].stage) !in seen {
            if i > 0 { assert classes[i] == tail[i - 1]; }
          }
          forall i, j | 0 <= i < j < |classes|
            ensures KeyOf(library, classes[i].stage) != KeyOf(library, classes[j].stage)
          {
            assert classes[j] == tail[j - 1];
            if i > 0 { assert classes[i] == tail[i - 1]; }
          }
        }
      }
    }
  }

  lemma {:induction false} LoadManifestsSucceedsIff(library: string, loader: Loader, manifests: seq<Manifest>, cat: Catalog)
    requires ManifestsAcyclic(manifests)
    ensures LoadManifests(library, loader, manifests, cat).Success? <==>
            forall j :: 0 <= j < |manifests| ==> ManifestLoadable(library, manifests[j])
    decreases |manifests|
  {
    if manifests != [] {
      assert ManifestAcyclic(manifests[0]);
      if manifests[0].Manifest? {
        var classes := manifests[0].stageClasses;
        LoadClassesSucceedsIff(library, loader, classes, map[], cat);
        var r := LoadClasses(library, loader, classes, map[], cat);
        if r.Success? {
          LoadManifestsSucceedsIff(library, loader, manifests[1..], r.value);
        }
      }
      SplitFirst(library, manifests);
    }
  }

  lemma SplitFirst(library: string, manifests: seq<Manifest>)
    requires manifests != []
    ensures (forall j :: 0 <= j < |manifests| ==> ManifestLoadable(library, manifests[j])) <==>
            ManifestLoadable(library, manifests[0]) &&
            forall j :: 0 <= j < |manifests[1..]| ==> ManifestLoadable(library, manifests[1..][j])
  {
    if ManifestLoadable(library, manifests[0]) && forall j :: 0 <= j < |manifests[1..]| ==> ManifestLoadable(library, manifests[1..][j]) {
      forall j | 0 <= j < |manifests| ensures ManifestLoadable(library, manifests[j]) {
        if j > 0 { assert manifests[j] == manifests[1..][j - 1]; }
      }
    }
  }

  lemma {:induction false} LoadLibrariesSucceedsIff(libs: seq<LibraryInput>, cat: Catalog)
    requires InputAcyclic(libs)
    ensures LoadLibraries(libs, cat).Success? <==> forall i :: 0 <= i < |libs| ==> LibraryLoadable(libs[i])
    decreases |libs|
  {
    if libs != [] {
      assert LibraryAcyclic(libs[0]);
      if libs[0].definition.Success? && libs[0].resources.Success? {
        var name := libs[0].definition.value;
        var manifests := libs[0].resources.value;
        LoadManifestsSucceedsIff(name, libs[0].loader, manifests, cat);
        var r := LoadManifests(name, libs[0].loader, manifests, cat);
        if r.Success? {
          LoadLibrariesSucceedsIff(libs[1..], r.value);
        }
      }
      if LibraryLoadable(libs[0]) && forall i :: 0 <= i < |libs[1..]| ==> LibraryLoadable(libs[1..][i]) {
        forall i | 0 <= i < |libs| ensures LibraryLoadable(libs[i]) {
          if i > 0 { assert libs[i] == libs[1..][i - 1]; }
        }
      }
    }
  }

  /**
   * The build succeeds exactly when the runtime configuration loads, every library
   * definition and resource list is extracted, every manifest is read, every class is
   * found and extracted, and no manifest declares the same key twice. Keys repeated
   * across manifests or libraries do not fail the build.
   */
  lemma BuildSucceedsIff(runtimeConfigurationFailure: Option<string>, libs: seq<LibraryInput>)
    requires InputAcyclic(libs)
    ensures Build(runtimeConfigurationFailure, libs).Success? <==>
            runtimeConfigurationFailure.None? && forall i :: 0 <= i < |libs| ==> LibraryLoadable(libs[i])
  {
    LoadLibrariesSucceedsIff(libs, EmptyCatalog);
  }

  /** Two extracted classes of one manifest, `i` before `j`, with the same key and the named classes. */
  predicate DuplicatePair(library: string, classes: seq<ClassOutcome>, i: int, j: int,
                          key: string, firstClass: string, secondClass: string)
  {
    && 0 <= i < j < |classes|
    && classes[i].Extracted? && classes[j].Extracted?
    && KeyOf(library, classes[i].stage) == key && KeyOf(library, classes[j].stage) == key
    && classes[i].stage.className == firstClass && classes[j].stage.className == secondClass
  }

  lemma {:induction false} LoadClassesDuplicate(library: string, loader: Loader, classes: seq<ClassOutcome>,
                                                seen: map<string, string>, cat: Catalog,
                                                l: string, key: string, c1: string, c2: string)
    requires ClassesAcyclic(classes)
    requires LoadClasses(library, loader, classes, seen, cat) == Failure(DuplicateStage(l, key, c1, c2))
    ensures l == library
    ensures (key in seen && seen[key] == c1 &&
             (exists j :: 0 <= j < |classes| && classes[j].Extracted? &&
                          KeyOf(library, classes[j].stage) == key && classes[j].stage.className == c2))
            || exists i, j :: DuplicatePair(library, classes, i, j, key, c1, c2)
    decreases |classes|
  {
    var stage := classes[0].stage;
    var k0 := KeyOf(library, stage);
    if k0 !in seen {
      var tail := classes[1..];
      var s := ResolveStage(stage);
      var seen' := seen[k0 := stage.className];
      LoadClassesDuplicate(library, loader, tail, seen', Catalog(cat.stageList + [s], cat.stageMap[k0 := s]), l, key, c1, c2);
      if key in seen' && seen'[key] == c1 &&
         (exists j :: 0 <= j < |tail| && tail[j].Extracted? &&
                      KeyOf(library, tail[j].stage) == key && tail[j].stage.className == c2) {
        var j :| 0 <= j < |tail| && tail[j].Extracted? && KeyOf(library, tail[j].stage) == key && tail[j].stage.className == c2;
        assert classes[j + 1] == tail[j];
        if key == k0 {
          assert DuplicatePair(library, classes, 0, j + 1, key, c1, c2);
        }
      } else {
        var i, j :| DuplicatePair(library, tail, i, j, key, c1, c2);
        assert classes[i + 1] == tail[i] && classes[j + 1] == tail[j];
        assert DuplicatePair(library, classes, i + 1, j + 1, key, c1, c2);
      }
    }
  }

  /**
   * A duplicate-key error names the library, the key, and the classes of two declared
   * stages of ONE manifest of that library, in declaration order.
   */
  lemma LoadManifestsDuplicate(library: string, loader: Loader, manifests: seq<Manifest>, cat: Catalog,
                               l: string, key: string, c1: string, c2: string)
    requires ManifestsAcyclic(manifests)
    requires LoadManifests(library, loader, manifests, cat) == Failure(DuplicateStage(l, key, c1, c2))
    ensures l == library
    ensures exists m, i, j :: 0 <= m < |manifests| && manifests[m].Manifest? &&
                              DuplicatePair(library, manifests[m].stageClasses, i, j, key, c1, c2)
    decreases |manifests|
  {
    assert ManifestAcyclic(manifests[0]);
    var classes := manifests[0].stageClasses;
    var r := LoadClasses(library, loader, classes, map[], cat);
    if r.Failure? {
      LoadClassesDuplicate(library, loader, classes, map[], cat, l, key, c1, c2);
      var i, j :| DuplicatePair(library, classes, i, j, key, c1, c2);
      assert 0 < |manifests| && manifests[0].Manifest? && DuplicatePair(library, manifests[0].stageClasses, i, j, key, c1, c2);
    } else {
      LoadManifestsDuplicate(library, loader, manifests[1..], r.value, l, key, c1, c2);
      var m, i, j :| 0 <= m < |manifests[1..]| && manifests[1..][m].Manifest? &&
                     DuplicatePair(library, manifests[1..][m].stageClasses, i, j, key, c1, c2);
      assert manifests[m + 1] == manifests[1..][m];
    }
  }

  /** Some manifest of `lib`, whose name is `l`, declares the duplicate pair. */
  ghost predicate LibraryDeclaresDuplicate(lib: LibraryInput, l: string, key: string, c1: string, c2: string)
  {
    && lib.definition == Success(l)
    && lib.resources.Success?
    && exists m, i, j :: 0 <= m < |lib.resources.value| && lib.resources.value[m].Manifest? &&
                         DuplicatePair(l, lib.resources.value[m].stageClasses, i, j, key, c1, c2)
  }

  lemma {:induction false} LoadLibrariesDuplicate(libs: seq<LibraryInput>, cat: Catalog, l: string, key: string, c1: string, c2: string)
    requires InputAcyclic(libs)
    requires LoadLibraries(libs, cat) == Failure(DuplicateStage(l, key, c1, c2))
    ensures exists li :: 0 <= li < |libs| && LibraryDeclaresDuplicate(libs[li], l, key, c1, c2)
    decreases |libs|
  {
    assert LibraryAcyclic(libs[0]);
    var name := libs[0].definition.value;
    var manifests := libs[0].resources.value;
    var r := LoadManifests(name, libs[0].loader, manifests, cat);
    if r.Failure? {
      LoadManifestsDuplicate(name, libs[0].loader, manifests, cat, l, key, c1, c2);
      assert LibraryDeclaresDuplicate(libs[0], l, key, c1, c2);
    } else {
      LoadLibrariesDuplicate(libs[1..], r.value, l, key, c1, c2);
      var li :| 0 <= li < |libs[1..]| && LibraryDeclaresDuplicate(libs[1..][li], l, key, c1, c2);
      assert libs[li + 1] == libs[1..][li];
    }
  }

  /**
   * A duplicate-key build error names a library, the key, and the classes of two
   * stages declared, in that order, by one manifest of that library.
   */
  lemma BuildDuplicateNamesBoth(runtimeConfigurationFailure: Option<string>, libs: seq<LibraryInput>,
                                l: string, key: string, c1: string, c2: string)
    requires InputAcyclic(libs)
    requires Build(runtimeConfigurationFailure, libs) == Failure(DuplicateStage(l, key, c1, c2))
    ensures exists li :: 0 <= li < |libs| && LibraryDeclaresDuplicate(libs[li], l, key, c1, c2)
  {
    LoadLibrariesDuplicate(libs, EmptyCatalog, l, key, c1, c2);
  }

  /** Every manifest of the library is read and every class of it is extracted. */
  predicate LibraryReadable(lib: LibraryInput)
  {
    && lib.definition.Success?
    && lib.resources.Success?
    && forall m :: 0 <= m < |lib.resources.value| ==> ManifestExtracted(lib.resources.value[m])
  }

  predicate ManifestExtracted(m: Manifest)
  {
    m.Manifest? && forall i :: 0 <= i < |m.stageClasses| ==> m.stageClasses[i].Extracted?
  }

  /** Over extracted classes, the only way a manifest pass fails is a duplicate key. */
  lemma {:induction false} LoadClassesOnlyDuplicates(library: string, loader: Loader, classes: seq<ClassOutcome>,
                                                     seen: map<string, string>, cat: Catalog)
    requires ClassesAcyclic(classes)
    requires forall i :: 0 <= i < |classes| ==> classes[i].Extracted?
    requires LoadClasses(library, loader, classes, seen, cat).Failure?
    ensures LoadClasses(library, loader, classes, seen, cat).error.DuplicateStage?
    decreases |classes|
  {
    var stage := classes[0].stage;
    var key := KeyOf(library, stage);
    if key !in seen {
      assert OutcomeAcyclic(classes[0]);
      var s := ResolveStage(stage);
      assert forall i :: 0 <= i < |classes[1..]| ==> classes[1..][i] == classes[i + 1];
      LoadClassesOnlyDuplicates(library, loader, classes[1..], seen[key := stage.className],
                                Catalog(cat.stageList + [s], cat.stageMap[key := s]));
    }
  }

  lemma {:induction false} LoadManifestsOnlyDuplicates(library: string, loader: Loader, manifests: seq<Manifest>, cat: Catalog)
    requires ManifestsAcyclic(manifests)
    requires forall m :: 0 <= m < |manifests| ==> ManifestExtracted(manifests[m])
    requires LoadManifests(library, loader, manifests, cat).Failure?
    ensures LoadManifests(library, loader, manifests, cat).error.DuplicateStage?
    decreases |manifests|
  {
    assert ManifestAcyclic(manifests[0]) && ManifestExtracted(manifests[0]);
    var classes := manifests[0].stageClasses;
    var r := LoadClasses(library, loader, classes, map[], cat);
    if r.Failure? {
      LoadClassesOnlyDuplicates(library, loader, classes, map[], cat);
    } else {
      assert forall m :: 0 <= m < |manifests[1..]| ==> manifests[1..][m] == manifests[m + 1];
      LoadManifestsOnlyDuplicates(library, loader, manifests[1..], r.value);
    }
  }

  lemma {:induction false} LoadLibrariesOnlyDuplicates(libs: seq<LibraryInput>, cat: Catalog)
    requires InputAcyclic(libs)
    requires forall li :: 0 <= li < |libs| ==> LibraryReadable(libs[li])
    requires LoadLibraries(libs, cat).Failure?
    ensures LoadLibraries(libs, cat).error.DuplicateStage?
    decreases |libs|
  {
    assert LibraryAcyclic(libs[0]) && LibraryReadable(libs[0]);
    var name := libs[0].definition.value;
    var manifests := libs[0].resources.value;
    var r := LoadManifests(name, libs[0].loader, manifests, cat);
    if r.Failure? {
      LoadManifestsOnlyDuplicates(name, libs[0].loader, manifests, cat);
    } else {
      assert forall li :: 0 <= li < |libs[1..]| ==> libs[1..][li] == libs[li + 1];
      LoadLibrariesOnlyDuplicates(libs[1..], r.value);
    }
  }

  /**
   * The converse of `BuildDuplicateNamesBoth`: when the runtime configuration loads
   * and every library, manifest and class is read, but some manifest declares two
   * stages with one key, the build fails with a duplicate-key error, and that error
   * names a pair declared by one manifest.
   */
  lemma BuildRejectsDuplicateInManifest(libs: seq<LibraryInput>, li: nat, m: nat, i: nat, j: nat)
    requires InputAcyclic(libs)
    requires forall x :: 0 <= x < |libs| ==> LibraryReadable(libs[x])
    requires li < |libs| && LibraryReadable(libs[li])
    requires m < |libs[li].resources.value| && ManifestExtracted(libs[li].resources.value[m])
    requires var library, classes := libs[li].definition.value, libs[li].resources.value[m].stageClasses;
             i < j < |classes| && KeyOf(library, classes[i].stage) == KeyOf(library, classes[j].stage)
    ensures Build(None, libs).Failure? && Build(None, libs).error.DuplicateStage?
    ensures var e := Build(None, libs).error;
            exists x :: 0 <= x < |libs| && LibraryDeclaresDuplicate(libs[x], e.library, e.key, e.firstClass, e.secondClass)
  {
    var library, classes := libs[li].definition.value, libs[li].resources.value[m].stageClasses;
    assert !ClassesLoadable(library, classes, map[]);
    assert !LibraryLoadable(libs[li]);
    BuildSucceedsIff(None, libs);
    LoadLibrariesOnlyDuplicates(libs, EmptyCatalog);
    var e := Build(None, libs).error;
    BuildDuplicateNamesBoth(None, libs, e.library, e.key, e.firstClass, e.secondClass);
  }

  // ---------------------------------------------------------------------------
  // Keys and duplicates across manifests

  /** Keys built from colon-free parts determine the parts. */
  lemma CreateKeyInjective(l1: string, n1: string, v1: string, l2: string, n2: string, v2: string)
    requires ':' !in l1 && ':' !in n1 && ':' !in l2 && ':' !in n2
    requires CreateKey(l1, n1, v1) == CreateKey(l2, n2, v2)
    ensures l1 == l2 && n1 == n2 && v1 == v2
  {
    assert CreateKey(l1, n1, v1) == l1 + ":" + (n1 + ":" + v1);
    assert CreateKey(l2, n2, v2) == l2 + ":" + (n2 + ":" + v2);
    SplitAtColon(l1, n1 + ":" + v1, l2, n2 + ":" + v2);
    SplitAtColon(n1, v1, n2, v2);
  }

  lemma SplitAtColon(a1: string, r1: string, a2: string, r2: string)
    requires ':' !in a1 && ':' !in a2
    requires a1 + ":" + r1 == a2 + ":" + r2
    ensures a1 == a2 && r1 == r2
  {
    var s := a1 + ":" + r1;
    FirstColon(a1, r1);
    FirstColon(a2, r2);
    assert |a1| == |a2|;
    assert a1 == s[..|a1|] == a2;
    assert r1 == s[|a1| + 1..] == r2;
  }

  /** In `a + ":" + r` with `a` colon-free, the first colon is at `|a|`. */
  lemma FirstColon(a: string, r: string)
    requires ':' !in a
    ensures (a + ":" + r)[|a|] == ':'
    ensures forall i :: 0 <= i < |a| ==> (a + ":" + r)[i] != ':'
  {
    forall i | 0 <= i < |a| ensures (a + ":" + r)[i] != ':' {
      assert (a + ":" + r)[i] == a[i];
    }
  }

  /** With a colon inside a part, two different stages share one key. */
  lemma CreateKeyCollides()
    ensures CreateKey("a:b", "c", "1") == CreateKey("a", "b:c", "1")
  {
  }

  /**
   * Two manifests of one library that each declare a stage with the same key: the
   * build succeeds, the list keeps both in order, and the map keeps the second.
   */
  lemma DuplicateAcrossManifestsAccepted(loader: Loader, first: StageDefinition, second: StageDefinition)
    requires first.configDefinitionsMap == map[] && second.configDefinitionsMap == map[]
    requires first.name == second.name && first.version == second.version
    ensures var libs := [LibraryInput(loader, Success("lib"), Success([Manifest([Extracted(first)]), Manifest([Extracted(second)])]))];
            && InputAcyclic(libs)
            && Build(None, libs) == Success(Catalog([first, second], map[KeyOf("lib", first) := second]))
  {
    var m1 := Manifest([Extracted(first)]);
    var m2 := Manifest([Extracted(second)]);
    var libs := [LibraryInput(loader, Success("lib"), Success([m1, m2]))];
    assert ResolvedConfigs(map[]) == map[];
    assert ResolveStage(first) == first && ResolveStage(second) == second;
    var key := KeyOf("lib", first);
    assert KeyOf("lib", second) == key;
    var c1 := Catalog([first], map[key := first]);
    assert [Extracted(first)][1..] == [];
    assert EmptyCatalog.stageList + [first] == [first];
    assert LoadClasses("lib", loader, [], map[key := first.className], c1) == Success(c1);
    assert LoadClasses("lib", loader, [Extracted(first)], map[], EmptyCatalog) == Success(c1);
    var c2 := Catalog([first, second], map[key := second]);
    assert [Extracted(second)][1..] == [];
    assert map[key := first][key := second] == map[key := second];
    assert c1.stageList + [second] == [first, second];
    assert c1.stageMap[key := second] == map[key := second];
    assert LoadClasses("lib", loader, [], map[key := second.className], c2) == Success(c2);
    assert LoadClasses("lib", loader, [Extracted(second)], map[], c1) == Success(c2);
    assert [m1, m2][1..] == [m2] && [m2][1..] == [];
    assert LoadManifests("lib", loader, [], c2) == Success(c2);
    assert LoadManifests("lib", loader, [m2], c1) == Success(c2);
    assert LoadManifests("lib", loader, [m1, m2], EmptyCatalog) == Success(c2);
    assert libs[1..] == [];
    assert LoadLibraries(libs, EmptyCatalog) == Success(c2);
  }
}
