/** CachedResourceAccessor against FileAccessor: the cache may miss, fail or forget at any time, any
    number of workers share it, and the files do not change. */
module CacheAside {
  import opened Wrappers

  const MAX_KEY_LEN: nat := 0x10_0000
  const MAX_VAL_LEN: nat := 0x10_0000

  /** NeverReturns: the copy loop repeats a read that delivers nothing. */
  datatype Result = Page(bytes: string) | INVALID_FILE_PATH | FILE_READ_ABORT | NeverReturns

  type Files = map<string, string>
  type Store = map<string, string>

  /** FileAccessor::access. */
  function AccessFile(files: Files, path: string): Result {
    if path in files then Page(files[path]) else INVALID_FILE_PATH
  }

  predicate ValidKey(key: string) { |key| < MAX_KEY_LEN }

  predicate ValidVal(val: string) { |val| < MAX_VAL_LEN }

  /** What the environment does during one access. getOk: a connection, its lock and a reply were
      had for the lookup. stored: the store took the value, whatever its reply said. sizes: how many
      bytes each read of the file delivers, None for a read that fails; after them every read
      delivers nothing. */
  datatype Env = Env(getOk: bool, stored: bool, sizes: seq<Option<nat>>)

  /** RedisCache::get. */
  function Lookup(store: Store, path: string, getOk: bool): Option<string> {
    if ValidKey(path) && getOk && path in store then Some(store[path]) else None
  }

  /** The file is copied into the cache on a miss. */
  predicate Cacheable(files: Files, path: string) { path in files && ValidKey(path) && ValidVal(files[path]) }

  datatype CopyEnd = Whole | Broken | Silent

  /** How the copy loop ends with rest bytes to go. */
  function CopyOutcome(rest: nat, sizes: seq<Option<nat>>): CopyEnd
    decreases |sizes|
  {
    if rest == 0 then Whole
    else if sizes == [] then Silent
    else
      match sizes[0]
      case None => Broken
      case Some(k) => CopyOutcome(rest - Min(k, rest), sizes[1..])
  }

  /** An access with a cache present: its result and the store after it. */
  function CachedAccess(files: Files, store: Store, path: string, env: Env): (Result, Store) {
    match Lookup(store, path, env.getOk)
    case Some(val) => (Page(val), store)
    case None =>
      if !Cacheable(files, path) then (AccessFile(files, path), store)
      else
        match CopyOutcome(|files[path]|, env.sizes)
        case Broken => (FILE_READ_ABORT, store)
        case Silent => (NeverReturns, store)
        case Whole => (Page(files[path]), if env.stored then store[path := files[path]] else store)
  }

  ghost predicate Coherent(files: Files, store: Store) {
    forall k :: k in store ==> k in files && store[k] == files[k]
  }

  /** Against a coherent store, one access gives what the file gives if and only if its copy of the
      file, when it makes one, comes to its end; either way the store stays coherent. */
  lemma {:induction false} AccessAgrees(files: Files, store: Store, path: string, env: Env)
    requires Coherent(files, store)
    ensures var (result, after) := CachedAccess(files, store, path, env);
            && Coherent(files, after)
            && (result == AccessFile(files, path) <==>
                 (Lookup(store, path, env.getOk).None? && Cacheable(files, path) ==>
                   CopyOutcome(|files[path]|, env.sizes) == Whole))
  {
  }

  /** What the reads of a file deliver, up to one that fails. */
  function Total(sizes: seq<Option<nat>>): nat {
    if sizes == [] || sizes[0].None? then 0 else sizes[0].value + Total(sizes[1..])
  }

  /** The reads up to j all work and deliver fewer than n bytes, and read j fails. */
  ghost predicate FailsShort(n: nat, sizes: seq<Option<nat>>, j: nat) {
    j < |sizes| && sizes[j].None? && (forall i :: 0 <= i < j ==> sizes[i].Some?) && Total(sizes[..j]) < n
  }

  /** How a copy ends, by what its reads deliver: broken exactly when one fails before all bytes are there,
      whole exactly when the reads before the first that fails deliver them all. */
  lemma {:induction false} CopyExactly(n: nat, sizes: seq<Option<nat>>)
    ensures CopyOutcome(n, sizes) == Whole <==> Total(sizes) >= n
    ensures CopyOutcome(n, sizes) == Broken <==> exists j :: FailsShort(n, sizes, j)
    decreases |sizes|
  {
    if n > 0 && sizes != [] && sizes[0].Some? {
      var k, rest := Min(sizes[0].value, n), sizes[1..];
      var left := n - k;
      CopyExactly(left, rest);
      assert forall i :: 0 <= i < |rest| ==> rest[i] == sizes[i + 1];
      forall j: nat | FailsShort(n, sizes, j) ensures exists i :: FailsShort(left, rest, i) {
        assert j > 0 && sizes[..j][1..] == rest[..j - 1];
        assert FailsShort(left, rest, j - 1);
      }
      forall j: nat | FailsShort(left, rest, j) ensures exists i :: FailsShort(n, sizes, i) {
        assert sizes[..j + 1][1..] == rest[..j];
        assert forall i :: 0 < i <= j ==> sizes[i] == rest[i - 1];
        assert FailsShort(n, sizes, j + 1);
      }
    } else if n > 0 && sizes != [] {
      assert sizes[..0] == [];
      assert FailsShort(n, sizes, 0);
    }
  }

  /** The cache has no answer: the key is too long, the lookup fails, or nothing is stored under it. */
  predicate Misses(store: Store, path: string, env: Env) {
    |path| >= 0x10_0000 || !env.getOk || path !in store
  }

  /** Exactly what a miss does, by the lengths of path and file: below a megabyte each, the file is copied,
      and stored if the copy is whole and the store takes it; otherwise it is served as it is and the
      store is left alone. */
  lemma {:induction false} MissExactly(files: Files, store: Store, path: string, env: Env)
    requires Misses(store, path, env)
    ensures var (result, after) := CachedAccess(files, store, path, env);
            var copied := path in files && |path| < 0x10_0000 && |files[path]| < 0x10_0000;
            && (result == FILE_READ_ABORT <==> copied && exists j :: FailsShort(|files[path]|, env.sizes, j))
            && (result == INVALID_FILE_PATH <==> path !in files)
            && (result.Page? <==> path in files && (copied ==> Total(env.sizes) >= |files[path]|))
            && (result.Page? ==> result.bytes == files[path])
            && after == if copied && env.stored && Total(env.sizes) >= |files[path]|
                        then store[path := files[path]] else store
  {
    if path in files {
      CopyExactly(|files[path]|, env.sizes);
    }
  }

  /** And a hit: what is stored, without touching the file. */
  lemma {:induction false} HitExactly(files: Files, store: Store, path: string, env: Env)
    requires !Misses(store, path, env)
    ensures CachedAccess(files, store, path, env) == (Page(store[path]), store)
  {
  }

  /** An entry the cache forgot is missed, whatever the lookup does, and the others are still there. */
  lemma {:induction false} EvictedIsMissed(files: Files, s: State, key: string, env: Env)
    ensures var t := Apply(files, s, Evict(key));
            && Misses(t.store, key, env) && t.workers == s.workers && t.log == s.log
            && forall k :: k != key ==> (k in t.store <==> k in s.store) && (k in s.store ==> t.store[k] == s.store[k])
  {
  }

  /** What a successful miss stores is served later without touching the file. */
  lemma {:induction false} MissWarmsCache(files: Files, store: Store, path: string, env: Env, later: Env)
    requires Cacheable(files, path) && Lookup(store, path, env.getOk).None?
    requires env.stored && CopyOutcome(|files[path]|, env.sizes) == Whole && later.getOk
    ensures var after := CachedAccess(files, store, path, env).1;
            CachedAccess(map[], after, path, later) == (Page(files[path]), after)
  {
  }

  /** Coherence is exact: one stale entry and some access shows it. */
  lemma {:induction false} StaleEntryShows(files: Files, store: Store)
    requires forall k :: k in store ==> ValidKey(k)
    ensures Coherent(files, store) <==>
            forall path, stored, sizes | path in files ==> CopyOutcome(|files[path]|, sizes) == Whole ::
              CachedAccess(files, store, path, Env(true, stored, sizes)).0 == AccessFile(files, path)
  {
    if Coherent(files, store) {
      forall path, stored, sizes | path in files ==> CopyOutcome(|files[path]|, sizes) == Whole
        ensures CachedAccess(files, store, path, Env(true, stored, sizes)).0 == AccessFile(files, path)
      {
        AccessAgrees(files, store, path, Env(true, stored, sizes));
      }
    } else {
      var k :| k in store && !(k in files && store[k] == files[k]);
      var sizes := if k in files then [Some(|files[k]|)] else [];
      assert k in files ==> CopyOutcome(|files[k]|, sizes) == Whole;
      assert Lookup(store, k, true) == Some(store[k]);
      assert CachedAccess(files, store, k, Env(true, true, sizes)).0 == Page(store[k]);
      assert CachedAccess(files, store, k, Env(true, true, sizes)).0 != AccessFile(files, k);
    }
  }

  // ----- any number of workers on one store

  type Tid = nat

  /** A worker between its steps: its lookup missed, or it is copying the file. */
  datatype Pc = Missed(path: string) | Copying(path: string, copy: string)

  /** An access that returned. broke: one of its reads failed. */
  datatype Finished = Finished(worker: Tid, path: string, result: Result, broke: bool)

  datatype State = State(store: Store, workers: map<Tid, Pc>, log: seq<Finished>)

  datatype Step =
    | Get(t: Tid, path: string, getOk: bool)
    | Open(t: Tid)
    | Read(t: Tid, size: Option<nat>)
    | Put(t: Tid, stored: bool)
    | Evict(key: string) // the cache forgets an entry

  predicate Copies(files: Files, s: State, t: Tid) {
    t in s.workers && s.workers[t].Copying? && s.workers[t].path in files
  }

  predicate Enabled(files: Files, s: State, step: Step) {
    match step
    case Get(t, _, _) => t !in s.workers
    case Open(t) => t in s.workers && s.workers[t].Missed?
    case Read(t, _) => Copies(files, s, t) && |s.workers[t].copy| < |files[s.workers[t].path]|
    case Put(t, _) => Copies(files, s, t) && |s.workers[t].copy| >= |files[s.workers[t].path]|
    case Evict(_) => true
  }

  function Finish(s: State, t: Tid, path: string, result: Result, broke: bool): State {
    s.(workers := s.workers - {t}, log := s.log + [Finished(t, path, result, broke)])
  }

  function Apply(files: Files, s: State, step: Step): State
    requires Enabled(files, s, step)
  {
    match step
    case Get(t, path, getOk) =>
      (match Lookup(s.store, path, getOk)
       case Some(val) => Finish(s, t, path, Page(val), false)
       case None => s.(workers := s.workers[t := Missed(path)]))
    case Open(t) =>
      var path := s.workers[t].path;
      if Cacheable(files, path) then s.(workers := s.workers[t := Copying(path, "")])
      else Finish(s, t, path, AccessFile(files, path), false)
    case Read(t, size) =>
      var path, copy := s.workers[t].path, s.workers[t].copy;
      (match size
       case None => Finish(s, t, path, FILE_READ_ABORT, true)
       case Some(k) =>
         var got := Min(k, |files[path]| - |copy|);
         s.(workers := s.workers[t := Copying(path, copy + files[path][|copy|..|copy| + got])]))
    case Put(t, stored) =>
      var path, copy := s.workers[t].path, s.workers[t].copy;
      Finish(s.(store := if stored then s.store[path := copy] else s.store), t, path, Page(copy), false)
    case Evict(key) => s.(store := s.store - {key})
  }

  predicate CanRun(files: Files, s: State, steps: seq<Step>)
    decreases |steps|
  {
    steps == [] || (Enabled(files, s, steps[0]) && CanRun(files, Apply(files, s, steps[0]), steps[1..]))
  }

  function Exec(files: Files, s: State, steps: seq<Step>): State
    requires CanRun(files, s, steps)
    decreases |steps|
  {
    if steps == [] then s else Exec(files, Apply(files, s, steps[0]), steps[1..])
  }

  ghost predicate CopiesSound(files: Files, s: State) {
    forall t :: t in s.workers && s.workers[t].Copying? ==>
      s.workers[t].path in files && s.workers[t].copy <= files[s.workers[t].path]
  }

  /** Every access that returned gave what the file gives, if and only if none of its reads failed. */
  ghost predicate Transparent(files: Files, log: seq<Finished>) {
    forall i :: 0 <= i < |log| ==> (log[i].result == AccessFile(files, log[i].path) <==> !log[i].broke)
  }

  ghost predicate Inv(files: Files, s: State) {
    Coherent(files, s.store) && CopiesSound(files, s) && Transparent(files, s.log)
  }

  lemma {:induction false} FinishKeeps(files: Files, s: State, t: Tid, path: string, result: Result, broke: bool)
    requires Inv(files, s) && (result == AccessFile(files, path) <==> !broke)
    ensures Inv(files, Finish(s, t, path, result, broke))
  {
  }

  lemma {:induction false} StepKeepsInv(files: Files, s: State, step: Step)
    requires Inv(files, s) && Enabled(files, s, step)
    ensures Inv(files, Apply(files, s, step))
  {
    match step
    case Get(t, path, getOk) =>
      var hit := Lookup(s.store, path, getOk);
      if hit.Some? {
        FinishKeeps(files, s, t, path, Page(hit.value), false);
      }
    case Open(t) =>
      if !Cacheable(files, s.workers[t].path) {
        FinishKeeps(files, s, t, s.workers[t].path, AccessFile(files, s.workers[t].path), false);
      }
    case Read(t, size) =>
      if size.None? {
        FinishKeeps(files, s, t, s.workers[t].path, FILE_READ_ABORT, true);
      }
    case Put(t, stored) =>
      var path, copy := s.workers[t].path, s.workers[t].copy;
      assert copy == files[path];
      FinishKeeps(files, s.(store := if stored then s.store[path := copy] else s.store), t, path, Page(copy), false);
    case Evict(_) =>
  }

  /** In every run of any number of workers, interleaved at their lookups, reads and stores, with lookups
      and stores that fail and entries forgotten at will: every access that returned gave what the
      file gives, if and only if none of its reads failed, and every entry equals its file. */
  lemma {:induction false} CacheIsTransparent(files: Files, s: State, steps: seq<Step>)
    requires Inv(files, s) && CanRun(files, s, steps)
    ensures var t := Exec(files, s, steps);
            Coherent(files, t.store) && Transparent(files, t.log) && CopiesSound(files, t)
    decreases |steps|
  {
    if steps != [] {
      StepKeepsInv(files, s, steps[0]);
      hide Apply, Enabled, Inv;
      CacheIsTransparent(files, Apply(files, s, steps[0]), steps[1..]);
    }
  }

  /** Every worker can go on, in exactly one way: it opens the file after its miss, reads while bytes are
      missing, and stores when none is. */
  lemma {:induction false} WorkersGoOn(files: Files, s: State, t: Tid)
    requires Inv(files, s) && t in s.workers
    ensures Enabled(files, s, Open(t)) <==> s.workers[t].Missed?
    ensures forall size :: Enabled(files, s, Read(t, size)) <==>
              s.workers[t].Copying? && s.workers[t].copy != files[s.workers[t].path]
    ensures forall stored :: Enabled(files, s, Put(t, stored)) <==>
              s.workers[t].Copying? && s.workers[t].copy == files[s.workers[t].path]
    ensures forall path, getOk :: !Enabled(files, s, Get(t, path, getOk))
  {
  }

  // ----- one access undisturbed

  lemma {:induction false} OneStepMore(files: Files, s: State, step: Step, rest: seq<Step>)
    requires Enabled(files, s, step) && CanRun(files, Apply(files, s, step), rest)
    ensures CanRun(files, s, [step] + rest) && Exec(files, s, [step] + rest) == Exec(files, Apply(files, s, step), rest)
  {
    assert ([step] + rest)[1..] == rest;
  }

  /** The reads of a copy and, if it comes to its end, its store. */
  function CopySteps(t: Tid, rest: nat, sizes: seq<Option<nat>>, stored: bool): seq<Step>
    decreases |sizes|
  {
    if rest == 0 then [Put(t, stored)]
    else if sizes == [] then []
    else [Read(t, sizes[0])] +
         if sizes[0].None? then [] else CopySteps(t, rest - Min(sizes[0].value, rest), sizes[1..], stored)
  }

  function AccessSteps(files: Files, store: Store, t: Tid, path: string, env: Env): seq<Step> {
    [Get(t, path, env.getOk)] +
    if Lookup(store, path, env.getOk).Some? then []
    else [Open(t)] + if Cacheable(files, path) then CopySteps(t, |files[path]|, env.sizes, env.stored) else []
  }

  /** A copy from s on has come to u. */
  ghost predicate CopiedTo(files: Files, s: State, u: State, t: Tid, path: string, end: CopyEnd, stored: bool) {
    path in files &&
    match end
    case Broken => u == Finish(s, t, path, FILE_READ_ABORT, true)
    case Silent => u.store == s.store
    case Whole =>
      var store := if stored then s.store[path := files[path]] else s.store;
      u == Finish(s.(store := store), t, path, Page(files[path]), false)
  }

  lemma {:induction false} CopiedFrom(files: Files, s: State, pc: Pc, u: State, t: Tid, path: string, end: CopyEnd,
                                      stored: bool)
    requires CopiedTo(files, s.(workers := s.workers[t := pc]), u, t, path, end, stored)
    ensures CopiedTo(files, s, u, t, path, end, stored)
  {
    assert s.workers[t := pc] - {t} == s.workers - {t};
  }

  lemma {:induction false} CopyRuns(files: Files, s: State, t: Tid, path: string, copy: string, sizes: seq<Option<nat>>,
                                    stored: bool)
    requires t in s.workers && s.workers[t] == Copying(path, copy) && path in files && copy <= files[path]
    ensures var rest := |files[path]| - |copy|;
            var steps := CopySteps(t, rest, sizes, stored);
            && CanRun(files, s, steps)
            && CopiedTo(files, s, Exec(files, s, steps), t, path, CopyOutcome(rest, sizes), stored)
    decreases |sizes|
  {
    var rest := |files[path]| - |copy|;
    if rest == 0 {
      assert copy == files[path];
      OneStepMore(files, s, Put(t, stored), []);
    } else if sizes != [] {
      var step := Read(t, sizes[0]);
      var u := Apply(files, s, step);
      if sizes[0].Some? {
        var got := Min(sizes[0].value, rest);
        var more := copy + files[path][|copy|..|copy| + got];
        assert u == s.(workers := s.workers[t := Copying(path, more)]);
        var steps := CopySteps(t, rest - got, sizes[1..], stored);
        hide Apply, Enabled, CopiedTo, CanRun, Exec;
        CopyRuns(files, u, t, path, more, sizes[1..], stored);
        CopiedFrom(files, s, Copying(path, more), Exec(files, u, steps), t, path, CopyOutcome(rest, sizes), stored);
        OneStepMore(files, s, step, steps);
      } else {
        OneStepMore(files, s, step, []);
      }
    }
  }

  /** An access whose steps come in a row is the access of one object: same result, same store. */
  lemma {:induction false} AccessRuns(files: Files, s: State, t: Tid, path: string, env: Env)
    requires t !in s.workers
    ensures var (result, store) := CachedAccess(files, s.store, path, env);
            var steps := AccessSteps(files, s.store, t, path, env);
            && CanRun(files, s, steps) && Exec(files, s, steps).store == store
            && (result != NeverReturns ==>
                 var last := Finished(t, path, result, result == FILE_READ_ABORT);
                 Exec(files, s, steps) == s.(store := store, log := s.log + [last]))
  {
    var get := Get(t, path, env.getOk);
    var s1 := Apply(files, s, get);
    assert s.workers - {t} == s.workers;
    if Lookup(s.store, path, env.getOk).Some? {
      OneStepMore(files, s, get, []);
    } else {
      var s2 := Apply(files, s1, Open(t));
      assert s.workers[t := Missed(path)] - {t} == s.workers;
      var steps := [];
      if Cacheable(files, path) {
        steps := CopySteps(t, |files[path]|, env.sizes, env.stored);
        CopyRuns(files, s2, t, path, "", env.sizes, env.stored);
        assert s2.workers == s.workers[t := Copying(path, "")];
        CopiedFrom(files, s, Copying(path, ""), Exec(files, s2, steps), t, path,
                   CopyOutcome(|files[path]|, env.sizes), env.stored);
      }
      hide CanRun, Exec, Apply, Enabled, CopySteps, CopyOutcome;
      OneStepMore(files, s1, Open(t), steps);
      OneStepMore(files, s, get, [Open(t)] + steps);
    }
  }

  // ----- the accessor object

  class CachedResourceAccessor {
    const hasCache: bool
    var store: Store

    constructor (hasCache: bool)
      ensures this.hasCache == hasCache && store == map[]
    {
      this.hasCache, store := hasCache, map[];
    }

    /** The copy of a file into a string, read by read. */
    method Copy(content: string, sizes: seq<Option<nat>>) returns (end: CopyEnd, copy: string)
      ensures end == CopyOutcome(|content|, sizes) && copy <= content && (end == Whole ==> copy == content)
    {
      copy := "";
      var left := sizes;
      while |copy| < |content|
        invariant copy <= content
        invariant CopyOutcome(|content|, sizes) == CopyOutcome(|content| - |copy|, left)
        decreases |left|
      {
        if left == [] {
          return Silent, copy; // the program repeats this round for ever
        }
        if left[0].None? {
          return Broken, copy;
        }
        var got := Min(left[0].value, |content| - |copy|);
        left := left[1..];
        copy := copy + content[|copy|..|copy| + got];
      }
      end := Whole;
    }

    method Access(files: Files, path: string, env: Env) returns (result: Result)
      modifies this`store
      ensures hasCache ==> (result, store) == CachedAccess(files, old(store), path, env)
      ensures !hasCache ==> result == AccessFile(files, path) && store == old(store)
    {
      if hasCache {
        var hit := Lookup(store, path, env.getOk);
        if hit.Some? {
          return Page(hit.value);
        }
      }
      result := AccessFile(files, path);
      if result.Page? && hasCache && ValidKey(path) && ValidVal(result.bytes) {
        var end, copy := Copy(result.bytes, env.sizes);
        match end {
          case Broken => return FILE_READ_ABORT;
          case Silent => return NeverReturns;
          case Whole =>
        }
        if env.stored {
          store := store[path := copy];
        }
        result := Page(copy);
      }
    }
  }
}
