/**
 * Class loaders as the stage library sees them, and the helpers that replace the
 * reflective calls on `SDCClassLoader` (duplicate, key, private flag) together with
 * the map the pool factory builds from the runtime's loaders.
 */
module Loaders {

  /**
   * A class loader. `isolating` is true for an `SDCClassLoader`; `name` is what its
   * `getName()` reports and `isPrivate` what its `isPrivate()` reports. `copy`
   * stands for object identity: the loaders the runtime creates carry copy 0, and
   * duplicating a loader yields a loader with a new copy number from 1 on.
   */
  datatype Loader = Loader(name: string, isolating: bool, isPrivate: bool, copy: nat)

  /** A loader the runtime created, as opposed to a duplicate made for the pool. */
  predicate Original(cl: Loader)
  {
    cl.copy == 0
  }

  /**
   * Whether the reflective methods were resolved (the first stage-library loader is an
   * `SDCClassLoader`), and the container's own class loader.
   */
  datatype Isolation = Isolation(supported: bool, container: Loader)

  /** The key used when no isolation support was found. */
  const FallbackKey: string := "key"

  /** Isolation support is decided by the first stage-library loader alone. */
  function ResolveIsolation(loaders: seq<Loader>, container: Loader): Isolation
  {
    if |loaders| > 0 && loaders[0].isolating then Isolation(true, container)
    else Isolation(false, container)
  }

  /**
   * A new private loader with the same contents (`duplicateStageClassLoader` builds a
   * stage loader marked private), or the same loader without isolation support.
   */
  function DuplicateClassLoader(iso: Isolation, cl: Loader, copy: nat): Loader
  {
    if iso.supported then cl.(isPrivate := true, copy := copy) else cl
  }

  /** The loader's name, or the fixed fallback key without isolation support. */
  function GetClassLoaderKey(iso: Isolation, cl: Loader): string
  {
    if iso.supported then cl.name else FallbackKey
  }

  /** The container's loader is never private; otherwise the loader's own flag decides. */
  predicate IsPrivateClassLoader(iso: Isolation, cl: Loader)
  {
    if cl != iso.container then iso.supported && cl.isPrivate else false
  }

  /**
   * A duplicate keeps the key and the name of the loader it copies. With isolation
   * support and a new copy number it is a new loader, distinct from every loader the
   * runtime created (the container's included), and it reports private, so that its
   * release goes back to the pool; without isolation support it is the loader itself.
   */
  lemma DuplicateKeepsIdentity(iso: Isolation, cl: Loader, copy: nat)
    ensures GetClassLoaderKey(iso, DuplicateClassLoader(iso, cl, copy)) == GetClassLoaderKey(iso, cl)
    ensures DuplicateClassLoader(iso, cl, copy).name == cl.name
    ensures iso.supported && copy >= 1 ==> !Original(DuplicateClassLoader(iso, cl, copy))
    ensures iso.supported && copy >= 1 && Original(cl) ==> DuplicateClassLoader(iso, cl, copy) != cl
    ensures iso.supported && copy >= 1 && Original(iso.container) ==>
              IsPrivateClassLoader(iso, DuplicateClassLoader(iso, cl, copy))
    ensures !iso.supported ==> DuplicateClassLoader(iso, cl, copy) == cl
  {
  }

  /** Without isolation support no loader is private and every loader has the fallback key. */
  lemma NoIsolationNothingPrivate(iso: Isolation, cl: Loader)
    requires !iso.supported
    ensures !IsPrivateClassLoader(iso, cl)
    ensures GetClassLoaderKey(iso, cl) == FallbackKey
  {
  }

  /** The container's own loader is never private, whatever its flags say. */
  lemma ContainerNeverPrivate(iso: Isolation)
    ensures !IsPrivateClassLoader(iso, iso.container)
  {
  }

  /**
   * The map the pool factory builds: every loader registered under its key, a later
   * loader replacing an earlier one with the same key.
   */
  function RegisteredLoaders(iso: Isolation, loaders: seq<Loader>): map<string, Loader>
    decreases |loaders|
  {
    if |loaders| == 0 then map[]
    else RegisteredLoaders(iso, loaders[..|loaders| - 1])[GetClassLoaderKey(iso, loaders[|loaders| - 1]) := loaders[|loaders| - 1]]
  }

  /**
   * A key is registered exactly when some loader has it, and it maps to the LAST
   * loader with that key.
   */
  lemma {:induction false} LastRegistrationWins(iso: Isolation, loaders: seq<Loader>, k: string)
    ensures k in RegisteredLoaders(iso, loaders) <==> exists i :: 0 <= i < |loaders| && GetClassLoaderKey(iso, loaders[i]) == k
    ensures forall i :: 0 <= i < |loaders| && GetClassLoaderKey(iso, loaders[i]) == k &&
                        (forall j :: i < j < |loaders| ==> GetClassLoaderKey(iso, loaders[j]) != k)
                        ==> RegisteredLoaders(iso, loaders)[k] == loaders[i]
    decreases |loaders|
  {
    if |loaders| > 0 {
      var init := loaders[..|loaders| - 1];
      LastRegistrationWins(iso, init, k);
      assert forall i :: 0 <= i < |init| ==> init[i] == loaders[i];
    }
  }

  /** Every registered loader sits under its own key. */
  lemma {:induction false} RegisteredUnderOwnKey(iso: Isolation, loaders: seq<Loader>, k: string)
    requires k in RegisteredLoaders(iso, loaders)
    ensures GetClassLoaderKey(iso, RegisteredLoaders(iso, loaders)[k]) == k
    decreases |loaders|
  {
    var last := loaders[|loaders| - 1];
    if GetClassLoaderKey(iso, last) != k {
      RegisteredUnderOwnKey(iso, loaders[..|loaders| - 1], k);
    }
  }

  /** The factory constructor: one pass over the runtime's loaders, putting each under its key. */
  method BuildClassLoaderMap(iso: Isolation, loaders: seq<Loader>) returns (classLoaderMap: map<string, Loader>)
    ensures classLoaderMap == RegisteredLoaders(iso, loaders)
  {
    classLoaderMap := map[];
    for i := 0 to |loaders|
      invariant classLoaderMap == RegisteredLoaders(iso, loaders[..i])
    {
      assert loaders[..i + 1][..i] == loaders[..i];
      classLoaderMap := classLoaderMap[GetClassLoaderKey(iso, loaders[i]) := loaders[i]];
    }
    assert loaders[..|loaders|] == loaders;
  }
}
