/**
 * The keyed pool of private stage class loaders, as configured by the stage library:
 * a bound on the total number of loaders (default 50), no bound per key, no idle
 * eviction, no waiting when exhausted; a missing idle loader is created by duplicating
 * the loader registered under the key. Idle loaders of a key are handed out most
 * recently returned first (the pool's default LIFO order). When the total is reached
 * and loaders of other keys are idle, the oldest idle loaders are destroyed to make
 * room (the pool's `clearOldest`).
 */
module Pool {
  import opened Wrappers
  import opened Loaders

  const MaxPrivateStageClassLoadersKey: string := "max.stage.private.classloaders"
  const MaxPrivateStageClassLoadersDefault: int := 50

  /** The configured total, or the default when the configuration does not set it; negative means no bound. */
  function MaxTotal(configured: Option<int>): int
  {
    match configured
    case Some(n) => n
    case None => MaxPrivateStageClassLoadersDefault
  }

  /** What the pool is built from: its total bound and the factory's loader map. */
  datatype PoolConfig = PoolConfig(maxTotal: int, iso: Isolation, classLoaderMap: map<string, Loader>)

  /** A pooled loader with the key it was created for. */
  datatype PoolEntry = PoolEntry(key: string, loader: Loader)

  /**
   * The pool: idle loaders, most recently returned first (so each key's stack is the
   * subsequence with that key, top first, and the oldest are at the end), borrowed
   * loaders, whether it is closed, and how many loaders it created.
   */
  datatype PoolState = PoolState(idle: seq<PoolEntry>, active: multiset<PoolEntry>, closed: bool, created: nat)

  datatype PoolError = PoolClosed | PoolExhausted | CreateFailed(key: string) | NotBorrowed(key: string)

  /** A borrowed loader and the pool after the borrow. */
  datatype Borrowed = Borrowed(loader: Loader, next: PoolState)

  const EmptyPool: PoolState := PoolState([], multiset{}, false, 0)

  /** Loaders alive in the pool, idle or borrowed. */
  function Live(s: PoolState): nat
  {
    |s.idle| + |s.active|
  }

  predicate HasRoom(cfg: PoolConfig, s: PoolState)
  {
    cfg.maxTotal < 0 || Live(s) < cfg.maxTotal
  }

  predicate NoIdle(s: PoolState, key: string)
  {
    forall i :: 0 <= i < |s.idle| ==> s.idle[i].key != key
  }

  /** The top of `key`'s idle stack: the first idle entry with that key. */
  function FirstIdle(idle: seq<PoolEntry>, key: string): (r: Option<nat>)
    ensures r.Some? ==> r.value < |idle| && idle[r.value].key == key &&
                        forall j :: 0 <= j < r.value ==> idle[j].key != key
    ensures r.None? ==> forall j :: 0 <= j < |idle| ==> idle[j].key != key
    decreases |idle|
  {
    if idle == [] then None
    else if idle[0].key == key then Some(0)
    else match FirstIdle(idle[1..], key)
      case None => None
      case Some(i) => Some(i + 1)
  }

  function RemoveAt(idle: seq<PoolEntry>, i: nat): seq<PoolEntry>
    requires i < |idle|
  {
    idle[..i] + idle[i + 1..]
  }

  /** `ClassLoaderFactory.create`: duplicate the loader registered under `key`. */
  function Create(cfg: PoolConfig, key: string, copy: nat): Option<Loader>
  {
    if key in cfg.classLoaderMap then Some(DuplicateClassLoader(cfg.iso, cfg.classLoaderMap[key], copy)) else None
  }

  /** How many idle loaders one `clearOldest` destroys: 15 per cent, rounded down, plus one. */
  function OldestCount(idle: nat): (n: nat)
    requires idle > 0
    ensures 1 <= n <= idle
  {
    idle * 15 / 100 + 1
  }

  /** `clearOldest`: destroy the least recently returned idle loaders, whatever their key. */
  function ClearOldest(s: PoolState): PoolState
    requires |s.idle| > 0
  {
    s.(idle := s.idle[..|s.idle| - OldestCount(|s.idle|)])
  }

  /**
   * The total check in the pool's `create`: while one more loader would exceed the
   * total, clear the oldest idle loaders, or give up when none is idle.
   */
  function MakeRoom(cfg: PoolConfig, s: PoolState): Option<PoolState>
    decreases |s.idle|
  {
    if HasRoom(cfg, s) then Some(s)
    else if s.idle == [] then None
    else MakeRoom(cfg, ClearOldest(s))
  }

  /**
   * `borrowObject(key)`: the top idle loader of the key; else a newly created one,
   * after making room under the total; else an immediate failure.
   */
  function Borrow(cfg: PoolConfig, s: PoolState, key: string): Result<Borrowed, PoolError>
  {
    if s.closed then Failure(PoolClosed)
    else match FirstIdle(s.idle, key)
      case Some(i) =>
        Success(Borrowed(s.idle[i].loader, s.(idle := RemoveAt(s.idle, i), active := s.active + multiset{s.idle[i]})))
      case None =>
        match MakeRoom(cfg, s)
        case None => Failure(PoolExhausted)
        case Some(t) =>
          match Create(cfg, key, t.created + 1)
          case None => Failure(CreateFailed(key))
          case Some(cl) =>
            Success(Borrowed(cl, t.(active := t.active + multiset{PoolEntry(key, cl)}, created := t.created + 1)))
  }

  /**
   * `returnObject(key, loader)`: a borrowed loader goes back on top of its key's idle
   * stack, or is destroyed when the pool is closed; anything else is refused.
   */
  function Return(cfg: PoolConfig, s: PoolState, key: string, cl: Loader): Result<PoolState, PoolError>
  {
    var e := PoolEntry(key, cl);
    if e !in s.active then Failure(NotBorrowed(key))
    else if s.closed then Success(s.(active := s.active - multiset{e}))
    else Success(s.(idle := [e] + s.idle, active := s.active - multiset{e}))
  }

  /** `close()`: destroy the idle loaders and refuse further borrows. */
  function Close(s: PoolState): PoolState
  {
    s.(idle := [], closed := true)
  }

  // ---------------------------------------------------------------------------
  // The pool invariant

  /** `e` duplicates the loader registered under its key, and was created by this pool. */
  predicate FromFactory(cfg: PoolConfig, s: PoolState, e: PoolEntry)
  {
    && e.key in cfg.classLoaderMap
    && e.loader == DuplicateClassLoader(cfg.iso, cfg.classLoaderMap[e.key], e.loader.copy)
    && (cfg.iso.supported ==> 1 <= e.loader.copy <= s.created)
  }

  /** No loader is in the pool twice: every idle or borrowed loader has its own copy number. */
  predicate Distinct(s: PoolState)
  {
    && (forall i, j :: 0 <= i < j < |s.idle| ==> s.idle[i].loader.copy != s.idle[j].loader.copy)
    && (forall e :: e in s.active ==> s.active[e] == 1)
    && (forall e, f :: e in s.active && f in s.active && e != f ==> e.loader.copy != f.loader.copy)
    && (forall i, e :: 0 <= i < |s.idle| && e in s.active ==> s.idle[i].loader.copy != e.loader.copy)
  }

  predicate PoolValid(cfg: PoolConfig, s: PoolState)
  {
    && (cfg.maxTotal >= 0 ==> Live(s) <= cfg.maxTotal)
    && (s.closed ==> s.idle == [])
    && (forall i :: 0 <= i < |s.idle| ==> FromFactory(cfg, s, s.idle[i]))
    && (forall e :: e in s.active ==> FromFactory(cfg, s, e))
    && (cfg.iso.supported ==> Distinct(s))
  }

  lemma EmptyPoolValid(cfg: PoolConfig)
    ensures PoolValid(cfg, EmptyPool) && Live(EmptyPool) == 0
  {
  }

  // ---------------------------------------------------------------------------
  // Borrow

  lemma RemoveAtFacts(idle: seq<PoolEntry>, i: nat)
    requires i < |idle|
    ensures |RemoveAt(idle, i)| == |idle| - 1
    ensures forall j :: 0 <= j < |RemoveAt(idle, i)| ==>
              RemoveAt(idle, i)[j] == if j < i then idle[j] else idle[j + 1]
  {
  }

  /**
   * Making room fails exactly when every loader the total allows is borrowed; otherwise
   * it leaves room for one more, touches only idle loaders, and keeps the most
   * recently returned ones.
   */
  lemma {:induction false} MakeRoomFacts(cfg: PoolConfig, s: PoolState)
    ensures MakeRoom(cfg, s).None? <==> cfg.maxTotal >= 0 && |s.active| >= cfg.maxTotal
    ensures MakeRoom(cfg, s).Some? ==>
              var t := MakeRoom(cfg, s).value;
              && HasRoom(cfg, t)
              && t.active == s.active && t.closed == s.closed && t.created == s.created
              && |t.idle| <= |s.idle| && t.idle == s.idle[..|t.idle|]
    decreases |s.idle|
  {
    if !HasRoom(cfg, s) && s.idle != [] {
      var c := ClearOldest(s);
      MakeRoomFacts(cfg, c);
      if MakeRoom(cfg, c).Some? {
        var t := MakeRoom(cfg, c).value;
        assert t.idle == c.idle[..|t.idle|];
      }
    }
  }

  /** Destroying idle loaders from the old end keeps the invariant. */
  lemma DropIdleKeepsValid(cfg: PoolConfig, s: PoolState, m: nat)
    requires PoolValid(cfg, s) && m <= |s.idle|
    ensures PoolValid(cfg, s.(idle := s.idle[..m]))
  {
    var t := s.(idle := s.idle[..m]);
    forall j | 0 <= j < |t.idle| ensures FromFactory(cfg, t, t.idle[j]) {
      assert t.idle[j] == s.idle[j];
    }
    forall x | x in t.active ensures FromFactory(cfg, t, x) {
      assert FromFactory(cfg, s, x);
    }
  }

  /** Taking the idle entry at `i` keeps the invariant. */
  lemma TakeIdleKeepsValid(cfg: PoolConfig, s: PoolState, i: nat)
    requires PoolValid(cfg, s) && i < |s.idle|
    ensures PoolValid(cfg, s.(idle := RemoveAt(s.idle, i), active := s.active + multiset{s.idle[i]}))
  {
    var e := s.idle[i];
    var n := s.(idle := RemoveAt(s.idle, i), active := s.active + multiset{e});
    RemoveAtFacts(s.idle, i);
    forall j | 0 <= j < |n.idle| ensures FromFactory(cfg, n, n.idle[j]) {
      var k := if j < i then j else j + 1;
      assert n.idle[j] == s.idle[k];
    }
    forall x | x in n.active ensures FromFactory(cfg, n, x) {
      if x != e { assert x in s.active; }
    }
    if cfg.iso.supported {
      TakeIdleKeepsDistinct(s, i);
    }
  }

  lemma TakeIdleKeepsDistinct(s: PoolState, i: nat)
    requires Distinct(s) && i < |s.idle|
    ensures Distinct(s.(idle := RemoveAt(s.idle, i), active := s.active + multiset{s.idle[i]}))
  {
    var e := s.idle[i];
    var n := s.(idle := RemoveAt(s.idle, i), active := s.active + multiset{e});
    forall x | x in n.active ensures n.active[x] == 1 {
      if x == e {
        assert x !in s.active;
      }
    }
    RestIdleApart(s, i);
    RestIdleApartFromTaken(s, i);
  }

  /** After taking the entry at `i`, the remaining idle loaders still have distinct copies. */
  lemma RestIdleApart(s: PoolState, i: nat)
    requires Distinct(s) && i < |s.idle|
    ensures var rest := RemoveAt(s.idle, i);
            forall j, k :: 0 <= j < k < |rest| ==> rest[j].loader.copy != rest[k].loader.copy
  {
    var rest := RemoveAt(s.idle, i);
    RemoveAtFacts(s.idle, i);
    forall j, k | 0 <= j < k < |rest| ensures rest[j].loader.copy != rest[k].loader.copy {
      var j' := if j < i then j else j + 1;
      var k' := if k < i then k else k + 1;
      assert rest[j] == s.idle[j'] && rest[k] == s.idle[k'];
    }
  }

  /** After taking the entry at `i`, no remaining idle loader shares a copy with a borrowed one or the taken one. */
  lemma RestIdleApartFromTaken(s: PoolState, i: nat)
    requires Distinct(s) && i < |s.idle|
    ensures var rest := RemoveAt(s.idle, i);
            forall j, x :: 0 <= j < |rest| && x in s.active + multiset{s.idle[i]} ==> rest[j].loader.copy != x.loader.copy
  {
    var rest := RemoveAt(s.idle, i);
    RemoveAtFacts(s.idle, i);
    forall j, x | 0 <= j < |rest| && x in s.active + multiset{s.idle[i]} ensures rest[j].loader.copy != x.loader.copy {
      var k := if j < i then j else j + 1;
      assert rest[j] == s.idle[k];
    }
  }

  /** Creating a new duplicate for `key`, when there is room, keeps the invariant. */
  lemma CreateKeepsValid(cfg: PoolConfig, s: PoolState, key: string)
    requires PoolValid(cfg, s) && HasRoom(cfg, s) && key in cfg.classLoaderMap
    ensures var cl := DuplicateClassLoader(cfg.iso, cfg.classLoaderMap[key], s.created + 1);
            PoolValid(cfg, s.(active := s.active + multiset{PoolEntry(key, cl)}, created := s.created + 1))
  {
    var cl := DuplicateClassLoader(cfg.iso, cfg.classLoaderMap[key], s.created + 1);
    var e := PoolEntry(key, cl);
    var n := s.(active := s.active + multiset{e}, created := s.created + 1);
    forall x | x in n.active ensures FromFactory(cfg, n, x) {
      if x != e { assert FromFactory(cfg, s, x); }
    }
    forall j | 0 <= j < |n.idle| ensures FromFactory(cfg, n, n.idle[j]) {
      assert FromFactory(cfg, s, s.idle[j]);
    }
    if cfg.iso.supported {
      forall x | x in s.active ensures x.loader.copy < e.loader.copy {
        assert FromFactory(cfg, s, x);
      }
      forall j | 0 <= j < |s.idle| ensures s.idle[j].loader.copy < e.loader.copy {
        assert FromFactory(cfg, s, s.idle[j]);
      }
      AddFreshKeepsDistinct(s, e);
    }
  }

  lemma AddFreshKeepsDistinct(s: PoolState, e: PoolEntry)
    requires Distinct(s)
    requires forall x :: x in s.active ==> x.loader.copy < e.loader.copy
    requires forall j :: 0 <= j < |s.idle| ==> s.idle[j].loader.copy < e.loader.copy
    ensures Distinct(s.(active := s.active + multiset{e}, created := s.created + 1))
  {
    assert e !in s.active;
  }

  /**
   * A borrow keeps the invariant (so the total never exceeds the bound), adds exactly
   * the borrowed loader to the borrowed ones, and hands out a duplicate of the loader
   * registered under the key.
   */
  lemma BorrowKeepsValid(cfg: PoolConfig, s: PoolState, key: string)
    requires PoolValid(cfg, s)
    requires Borrow(cfg, s, key).Success?
    ensures var b := Borrow(cfg, s, key).value;
            && PoolValid(cfg, b.next)
            && b.next.active == s.active + multiset{PoolEntry(key, b.loader)}
            && key in cfg.classLoaderMap
            && b.loader == DuplicateClassLoader(cfg.iso, cfg.classLoaderMap[key], b.loader.copy)
  {
    match FirstIdle(s.idle, key)
    case Some(i) =>
      var n := s.(idle := RemoveAt(s.idle, i), active := s.active + multiset{s.idle[i]});
      assert Borrow(cfg, s, key) == Success(Borrowed(s.idle[i].loader, n));
      assert FromFactory(cfg, s, s.idle[i]);
      assert PoolValid(cfg, n) by {
        TakeIdleKeepsValid(cfg, s, i);
      }
    case None =>
      var t := MakeRoom(cfg, s).value;
      assert key in cfg.classLoaderMap;
      var cl := DuplicateClassLoader(cfg.iso, cfg.classLoaderMap[key], t.created + 1);
      var n := t.(active := t.active + multiset{PoolEntry(key, cl)}, created := t.created + 1);
      assert Borrow(cfg, s, key) == Success(Borrowed(cl, n));
      assert PoolValid(cfg, t) && HasRoom(cfg, t) && t.active == s.active by {
        MakeRoomFacts(cfg, s);
        DropIdleKeepsValid(cfg, s, |t.idle|);
        assert t == s.(idle := s.idle[..|t.idle|]);
      }
      assert PoolValid(cfg, n) by {
        CreateKeepsValid(cfg, t, key);
      }
  }

  /**
   * The loader a borrow hands out is not in use by anyone else: it differs from every
   * loader borrowed and not yet returned (with isolation support).
   */
  lemma BorrowedNotInUse(cfg: PoolConfig, s: PoolState, key: string)
    requires PoolValid(cfg, s) && cfg.iso.supported
    requires Borrow(cfg, s, key).Success?
    ensures forall e :: e in s.active ==> e.loader != Borrow(cfg, s, key).value.loader
  {
    var b := Borrow(cfg, s, key).value;
    match FirstIdle(s.idle, key)
    case Some(i) =>
    case None =>
      MakeRoomFacts(cfg, s);
      forall e | e in s.active ensures e.loader != b.loader {
        assert FromFactory(cfg, s, e);
      }
  }

  /** Every loader the total allows is borrowed. */
  predicate AllBorrowed(cfg: PoolConfig, s: PoolState)
  {
    cfg.maxTotal >= 0 && |s.active| >= cfg.maxTotal
  }

  /**
   * Borrow fails exactly in three cases, without waiting: the pool is closed; there is
   * no idle loader for the key and every loader the total allows is borrowed (whatever
   * the key's own count, and however many loaders of other keys are idle); or the key
   * has no registered loader to duplicate.
   */
  lemma BorrowFailsIff(cfg: PoolConfig, s: PoolState, key: string)
    ensures Borrow(cfg, s, key) == Failure(PoolClosed) <==> s.closed
    ensures Borrow(cfg, s, key) == Failure(PoolExhausted) <==> !s.closed && NoIdle(s, key) && AllBorrowed(cfg, s)
    ensures Borrow(cfg, s, key) == Failure(CreateFailed(key)) <==>
              !s.closed && NoIdle(s, key) && !AllBorrowed(cfg, s) && key !in cfg.classLoaderMap
    ensures Borrow(cfg, s, key).Success? <==>
              !s.closed && (!NoIdle(s, key) || (!AllBorrowed(cfg, s) && key in cfg.classLoaderMap))
  {
    MakeRoomFacts(cfg, s);
    if !s.closed && !NoIdle(s, key) {
      var i :| 0 <= i < |s.idle| && s.idle[i].key == key;
      assert FirstIdle(s.idle, key).Some?;
    }
  }

  /**
   * An idle loader of the key is reused: the most recently returned one (`i`, the
   * first idle entry with the key, wherever entries of other keys sit), which alone
   * leaves the idle loaders and joins the borrowed ones; nothing is created or
   * destroyed.
   */
  lemma BorrowReusesIdle(cfg: PoolConfig, s: PoolState, key: string, i: nat)
    requires !s.closed && i < |s.idle| && s.idle[i].key == key
    requires forall j :: 0 <= j < i ==> s.idle[j].key != key
    ensures Borrow(cfg, s, key).Success?
    ensures var b := Borrow(cfg, s, key).value;
            && b.loader == s.idle[i].loader
            && b.next.idle == s.idle[..i] + s.idle[i + 1..]
            && b.next.active == s.active + multiset{s.idle[i]}
            && b.next.closed == s.closed && b.next.created == s.created
            && Live(b.next) == Live(s)
  {
    assert FirstIdle(s.idle, key) == Some(i);
  }

  // ---------------------------------------------------------------------------
  // Return and close

  /** Pushing a borrowed entry back on the idle stacks keeps the invariant. */
  lemma PushIdleKeepsValid(cfg: PoolConfig, s: PoolState, e: PoolEntry)
    requires PoolValid(cfg, s) && !s.closed && e in s.active
    ensures PoolValid(cfg, s.(idle := [e] + s.idle, active := s.active - multiset{e}))
  {
    var n := s.(idle := [e] + s.idle, active := s.active - multiset{e});
    forall x | x in n.active ensures FromFactory(cfg, n, x) {
      assert x in s.active;
    }
    forall j | 0 <= j < |n.idle| ensures FromFactory(cfg, n, n.idle[j]) {
      if j > 0 { assert n.idle[j] == s.idle[j - 1]; }
    }
    if cfg.iso.supported {
      PushIdleKeepsDistinct(s, e);
    }
  }

  lemma PushIdleKeepsDistinct(s: PoolState, e: PoolEntry)
    requires Distinct(s) && e in s.active
    ensures Distinct(s.(idle := [e] + s.idle, active := s.active - multiset{e}))
  {
    var n := s.(idle := [e] + s.idle, active := s.active - multiset{e});
    assert e !in n.active;
    forall x | x in n.active ensures n.active[x] == 1 && x in s.active {
    }
    forall j, k | 0 <= j < k < |n.idle| ensures n.idle[j].loader.copy != n.idle[k].loader.copy {
      assert n.idle[k] == s.idle[k - 1];
      if j > 0 { assert n.idle[j] == s.idle[j - 1]; }
    }
    forall j, x | 0 <= j < |n.idle| && x in n.active ensures n.idle[j].loader.copy != x.loader.copy {
      assert x in s.active;
      if j > 0 { assert n.idle[j] == s.idle[j - 1]; }
    }
  }

  /** Return keeps the invariant and moves the loader from borrowed to idle (or destroys it when closed). */
  lemma ReturnKeepsValid(cfg: PoolConfig, s: PoolState, key: string, cl: Loader)
    requires PoolValid(cfg, s)
    requires Return(cfg, s, key, cl).Success?
    ensures var n := Return(cfg, s, key, cl).value;
            && PoolValid(cfg, n)
            && n.active == s.active - multiset{PoolEntry(key, cl)}
            && Live(n) == if s.closed then Live(s) - 1 else Live(s)
  {
    var e := PoolEntry(key, cl);
    if s.closed {
      var n := Return(cfg, s, key, cl).value;
      forall x | x in n.active ensures FromFactory(cfg, n, x) {
        assert x in s.active;
      }
      if cfg.iso.supported {
        forall x | x in n.active ensures n.active[x] == 1 && x in s.active {
        }
      }
    } else {
      PushIdleKeepsValid(cfg, s, e);
    }
  }

  /** Return is refused exactly when the loader is not borrowed under that key. */
  lemma ReturnFailsIff(cfg: PoolConfig, s: PoolState, key: string, cl: Loader)
    ensures Return(cfg, s, key, cl).Failure? <==> PoolEntry(key, cl) !in s.active
    ensures Return(cfg, s, key, cl).Failure? ==> Return(cfg, s, key, cl).error == NotBorrowed(key)
  {
  }

  /**
   * Returning a borrowed loader and borrowing under the same key gives that very
   * loader back and restores the pool exactly: no new duplicate is made.
   */
  lemma ReturnThenBorrow(cfg: PoolConfig, s: PoolState, key: string, cl: Loader)
    requires !s.closed
    requires Return(cfg, s, key, cl).Success?
    ensures Borrow(cfg, Return(cfg, s, key, cl).value, key) == Success(Borrowed(cl, s))
  {
    var e := PoolEntry(key, cl);
    var n := Return(cfg, s, key, cl).value;
    assert RemoveAt(n.idle, 0) == s.idle;
    assert n.active + multiset{e} == s.active;
  }

  /** Close keeps the invariant, is idempotent, and every later borrow fails. */
  lemma CloseFacts(cfg: PoolConfig, s: PoolState, key: string)
    requires PoolValid(cfg, s)
    ensures PoolValid(cfg, Close(s))
    ensures Close(Close(s)) == Close(s)
    ensures Borrow(cfg, Close(s), key) == Failure(PoolClosed)
    ensures Close(s).active == s.active && Close(s).idle == []
  {
  }

  // ---------------------------------------------------------------------------
  // No bound per key

  /** `n` borrows of one key in a row. */
  function BorrowMany(cfg: PoolConfig, s: PoolState, key: string, n: nat): Result<PoolState, PoolError>
    decreases n
  {
    if n == 0 then Success(s)
    else match Borrow(cfg, s, key)
      case Failure(e) => Failure(e)
      case Success(b) => BorrowMany(cfg, b.next, key, n - 1)
  }

  /**
   * With no idle loader for the key, one key alone may take the whole total: `n`
   * borrows in a row succeed as long as the total allows that many borrowed loaders,
   * each creating a loader.
   */
  lemma {:induction false} OneKeyMayFillThePool(cfg: PoolConfig, s: PoolState, key: string, n: nat)
    requires PoolValid(cfg, s) && !s.closed && key in cfg.classLoaderMap && NoIdle(s, key)
    requires cfg.maxTotal < 0 || |s.active| + n <= cfg.maxTotal
    ensures BorrowMany(cfg, s, key, n).Success?
    ensures var t := BorrowMany(cfg, s, key, n).value;
            PoolValid(cfg, t) && |t.active| == |s.active| + n && NoIdle(t, key) && !t.closed
    decreases n
  {
    if n > 0 {
      BorrowFailsIff(cfg, s, key);
      BorrowKeepsValid(cfg, s, key);
      MakeRoomFacts(cfg, s);
      var b := Borrow(cfg, s, key).value;
      assert FirstIdle(s.idle, key).None?;
      var t := MakeRoom(cfg, s).value;
      forall j | 0 <= j < |b.next.idle| ensures b.next.idle[j].key != key {
        assert b.next.idle[j] == s.idle[j];
      }
      OneKeyMayFillThePool(cfg, b.next, key, n - 1);
    }
  }
}
