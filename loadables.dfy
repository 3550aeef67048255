/**
 * The path-keyed cache of loadables and the lifecycle of one entry. The cache
 * maps a resolved path to a non-owning reference; entries are shared by their
 * owners (configs and views) and count them explicitly, as shared_ptr does.
 * An entry is loading while its event source is registered, leaves that state
 * once, in LoaderDone or in its destructor, and its destructor erases its own
 * key. realpath, the loader child, the event loop and the system calls of
 * loader_done are parameters: their results are passed in.
 */
module Loadables {
  import opened Wrappers
  import opened Bytes
  import opened TransferRecord

  /** PATH_MAX of the target (FreeBSD). */
  const PathMax: nat := 1024

  /** What realpath(3) yields for a path. */
  datatype Resolution = Unresolvable | Resolved(canonical: string)

  /** realpath's result: shorter than PATH_MAX and free of NUL characters. */
  predicate IsRealpath(s: string)
  {
    |s| < PathMax && forall i :: 0 <= i < |s| ==> s[i] != '\0'
  }

  /** The cache key: the whole PATH_MAX + 1 buffer realpath wrote into, trailing NULs included. */
  function KeyOf(canonical: string): (k: string)
    requires IsRealpath(canonical)
    ensures |k| == PathMax + 1
    ensures forall i :: 0 <= i < |k| ==> (k[i] == '\0' <==> i >= |canonical|)
    ensures k[..|canonical|] == canonical
  {
    canonical + seq(PathMax + 1 - |canonical|, _ => '\0')
  }

  /** Padding keeps keys faithful: two resolved paths share a key only if they are equal. */
  lemma KeyOfInjective(a: string, b: string)
    requires IsRealpath(a) && IsRealpath(b) && KeyOf(a) == KeyOf(b)
    ensures a == b
  {
    var k := KeyOf(a);
    assert |a| == |b| by {
      assert k[|a|] == '\0' && (|b| < |k| ==> k[|b|] == '\0');
    }
    assert a == k[..|a|] == b;
  }

  /** pid_fork_t: a poll descriptor and a process descriptor. */
  datatype ProcHandle = ProcHandle(pollFd: int, procFd: int)

  /** A handle after pid_fork_exit_code has reaped its child. */
  const ReapedHandle: ProcHandle := ProcHandle(-1, -1)

  /** What start_file_loader hands back to the parent: the child's handle and the segment's descriptor. */
  datatype Spawn = SpawnFailed | Spawned(proc: ProcHandle, shm: int)

  /** What pid_fork_exit_code reports: failure, or the child's exit code. */
  datatype ReapResult = ReapFailed | ReapedWith(code: int)

  class Loadable {
    const path: string
    var renderable: Option<Renderable>
    var loaderProc: ProcHandle
    /** fdsrc != nullptr: the loader's descriptor is registered with the event loop. */
    var loading: bool
    var shmFd: int
    /** shm_fd has not been closed. */
    var shmOpen: bool
    /** The destructor sent SIGTERM to the loader. */
    var terminated: bool
    /** How many times "loaded" was emitted. */
    var loadedSignals: nat
    /** The shared_ptr use count. */
    var owners: nat
    /** The destructor has not run. */
    var alive: bool

    ghost predicate Valid()
      reads this
    {
      && loadedSignals <= 1
      && (loading ==> alive && loadedSignals == 0 && renderable.None? && shmOpen && !terminated)
      && (loadedSignals == 1 ==> !loading && shmFd == -1 && !shmOpen)
      && (alive <==> owners > 0)
    }

    /** loadable_t(path): start the loader and register its descriptor. */
    constructor (path: string, spawn: Spawn, registered: bool)
      ensures Valid() && this.path == path && alive && owners == 1
      ensures loading == (spawn.Spawned? && registered)
      ensures renderable.None? && loadedSignals == 0 && !terminated
      ensures spawn.Spawned? ==> loaderProc == spawn.proc && shmFd == spawn.shm && shmOpen
      ensures spawn.SpawnFailed? ==> loaderProc == ReapedHandle && shmFd == -1 && !shmOpen
    {
      this.path := path;
      renderable := None;
      terminated := false;
      loadedSignals := 0;
      owners := 1;
      alive := true;
      if spawn.Spawned? {
        loaderProc, shmFd, shmOpen := spawn.proc, spawn.shm, true;
        loading := registered;
      } else {
        loaderProc, shmFd, shmOpen := ReapedHandle, -1, false;
        loading := false;
      }
    }

    /** A new shared_ptr to this entry. */
    method Retain()
      requires Valid() && alive
      modifies this`owners
      ensures Valid() && owners == old(owners) + 1
    {
      owners := owners + 1;
    }

    /**
     * loader_done: the event loop saw the loader's descriptor become readable.
     * stat is the segment as fstat sees it (None when fstat fails); mapOk and
     * unmapOk are the results of mmap and munmap; mmap of an empty segment
     * fails. The event source is removed before anything else, so the entry
     * leaves the loading state whatever happens next.
     */
    method LoaderDone(order: ByteOrder, reap: ReapResult, stat: Option<seq<byte>>, mapOk: bool, unmapOk: bool)
      returns (status: int)
      requires Valid() && loading
      modifies this`loading, this`loaderProc, this`renderable, this`shmFd, this`shmOpen, this`loadedSignals
      ensures Valid() && !loading && !shmOpen
      ensures status == 0 || status == -1
      ensures status == 0 <==>
        reap == ReapedWith(0) && stat.Some? && |stat.value| > 0 && mapOk && unmapOk
      ensures status == 0 ==>
        renderable == Decode(order, stat.value) && shmFd == -1 && loadedSignals == 1
      ensures status == -1 ==> loadedSignals == 0 && shmFd == old(shmFd)
      ensures (reap == ReapedWith(0) && stat.Some? && |stat.value| > 0 && mapOk)
        ==> renderable == Decode(order, stat.value)
      ensures !(reap == ReapedWith(0) && stat.Some? && |stat.value| > 0 && mapOk) ==> renderable.None?
      ensures reap.ReapedWith? ==> loaderProc == ReapedHandle
      ensures reap.ReapFailed? ==> loaderProc == old(loaderProc)
    {
      loading := false;
      if reap.ReapedWith? {
        loaderProc := ReapedHandle;
      }
      if reap.ReapFailed? || reap.code != 0 || stat.None? || |stat.value| == 0 || !mapOk {
        shmOpen := false;
        return -1;
      }
      renderable := Decode(order, stat.value);
      if !unmapOk {
        shmOpen := false;
        return -1;
      }
      shmOpen := false;
      shmFd := -1;
      loadedSignals := loadedSignals + 1;
      return 0;
    }

    /**
     * Drop one shared_ptr. When it was the last, ~loadable_t runs: a load still
     * in flight is cancelled (event source removed, SIGTERM sent, child
     * reaped with the result reap), and the entry's key is erased from the
     * cache. The destructor does not close shm_fd.
     */
    method Release(cache: LoadableCache, reap: ReapResult)
      requires Valid() && alive && cache.Valid()
      modifies this, cache
      ensures Valid() && cache.Valid()
      ensures owners == old(owners) - 1
      ensures renderable == old(renderable) && loadedSignals == old(loadedSignals)
      ensures shmFd == old(shmFd) && shmOpen == old(shmOpen)
      ensures old(owners) > 1 ==>
        && alive && loading == old(loading) && terminated == old(terminated)
        && loaderProc == old(loaderProc) && cache.storage == old(cache.storage)
      ensures old(owners) == 1 ==> !alive && !loading && cache.storage == old(cache.storage) - {path}
      ensures old(owners) == 1 ==> (terminated <==> old(loading) || old(terminated))
      ensures old(owners) == 1 && old(loading) && reap.ReapedWith? ==> loaderProc == ReapedHandle
      ensures !(old(owners) == 1 && old(loading) && reap.ReapedWith?) ==> loaderProc == old(loaderProc)
    {
      owners := owners - 1;
      if owners == 0 {
        if loading {
          loading := false;
          terminated := true;
          if reap.ReapedWith? {
            loaderProc := ReapedHandle;
          }
        }
        alive := false;
        cache.storage := cache.storage - {path};
      }
    }
  }

  /** loadable_cache_t: resolved path to a non-owning reference. */
  class LoadableCache {
    var storage: map<string, Loadable>

    /** Every key refers to a live entry created for that key, so lock() never yields null. */
    ghost predicate Valid()
      reads this, storage.Values
    {
      forall k | k in storage ::
        storage[k].path == k && storage[k].alive && storage[k].owners > 0 && storage[k].Valid()
    }

    constructor ()
      ensures Valid() && storage == map[]
    {
      storage := map[];
    }

    /**
     * load_file: nothing when the path does not resolve; the live entry for the
     * resolved key if there is one (one more owner, no new key); otherwise a new
     * entry started with spawn and registered, stored under exactly one new key.
     */
    method LoadFile(resolution: Resolution, spawn: Spawn, registered: bool) returns (r: Loadable?)
      requires Valid()
      requires resolution.Resolved? ==> IsRealpath(resolution.canonical)
      modifies this, storage.Values
      ensures Valid()
      ensures resolution.Unresolvable? ==> r == null && storage == old(storage)
      ensures resolution.Resolved? ==>
        var k := KeyOf(resolution.canonical);
        && r != null && r.path == k && r.alive
        && storage == old(storage)[k := r]
        && storage.Keys == old(storage.Keys) + {k}
      ensures resolution.Resolved? && KeyOf(resolution.canonical) in old(storage) ==>
        var k := KeyOf(resolution.canonical);
        && r == old(storage[k]) && storage == old(storage)
        && r.owners == old(storage[k].owners) + 1
        && r.loading == old(storage[k].loading) && r.renderable == old(storage[k].renderable)
      ensures resolution.Resolved? && KeyOf(resolution.canonical) !in old(storage) ==>
        && fresh(r) && r.owners == 1 && r.renderable.None? && r.loadedSignals == 0
        && r.loading == (spawn.Spawned? && registered)
      ensures forall e | e in old(storage.Values) && e != r :: unchanged(e)
    {
      if resolution.Unresolvable? {
        return null;
      }
      var k := KeyOf(resolution.canonical);
      if k in storage {
        r := storage[k];
        r.Retain();
        return r;
      }
      r := new Loadable(k, spawn, registered);
      storage := storage[k := r];
    }
  }

  /**
   * Two requests for paths that resolve to the same file before the first
   * settles yield the same entry, started once, with two owners.
   */
  method LoadSameFileTwice(cache: LoadableCache, canonical: string, spawn: Spawn, other: Spawn)
    returns (a: Loadable?, b: Loadable?)
    requires cache.Valid() && IsRealpath(canonical) && KeyOf(canonical) !in cache.storage
    modifies cache, cache.storage.Values
    ensures cache.Valid() && a != null && a == b && a.owners == 2
    ensures cache.storage.Keys == old(cache.storage.Keys) + {KeyOf(canonical)}
    ensures |cache.storage| == |old(cache.storage)| + 1
  {
    a := cache.LoadFile(Resolved(canonical), spawn, true);
    b := cache.LoadFile(Resolved(canonical), other, true);
  }
}
