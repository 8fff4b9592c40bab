/** The Redis connection pool as a protocol: bounded leases handed to a least loaded connection, and
    the per-connection lock, used by any number of threads. */
module RedisPool {
  type Conn = nat
  type Tid = nat

  const NULL: Conn := 0

  /** The connections and their reference counts. */
  datatype Pool = Pool(conns: set<Conn>, refs: multiset<Conn>, maxRef: nat, maxConn: nat)

  ghost predicate WellFormed(p: Pool) {
    NULL !in p.conns && forall c :: c in p.refs ==> c in p.conns && p.refs[c] <= p.maxRef
  }

  /** A connection a take may hand out: one of the least loaded, below the limit. */
  predicate Takeable(p: Pool, c: Conn) {
    c in p.conns && p.refs[c] < p.maxRef && forall d :: d in p.conns ==> p.refs[c] <= p.refs[d]
  }

  /** A take hands out nothing. */
  predicate Full(p: Pool) { forall c :: c in p.conns ==> p.refs[c] >= p.maxRef }

  function Lease(p: Pool, c: Conn): Pool { p.(refs := p.refs + multiset{c}) }

  // ----- sums of reference counts

  lemma {:induction false} CountBound(conns: set<Conn>, refs: multiset<Conn>, lo: nat, hi: nat)
    requires forall c :: c in refs ==> c in conns
    requires forall c :: c in conns ==> lo <= refs[c] <= hi
    ensures |conns| * lo <= |refs| <= |conns| * hi
    ensures (exists c :: c in conns && refs[c] < hi) ==> |refs| < |conns| * hi
    ensures (exists c :: c in conns && refs[c] > lo) ==> |refs| > |conns| * lo
  {
    if conns == {} {
      assert refs == multiset{};
    } else {
      var c :| c in conns;
      var rest := refs[c := 0];
      assert |refs| == refs[c] + |rest|;
      CountBound(conns - {c}, rest, lo, hi);
      assert forall d :: d in conns - {c} ==> rest[d] == refs[d];
      assert (exists d :: d in conns && refs[d] < hi) ==>
          refs[c] < hi || exists d :: d in conns - {c} && rest[d] < hi;
      assert (exists d :: d in conns && refs[d] > lo) ==>
          refs[c] > lo || exists d :: d in conns - {c} && rest[d] > lo;
      Distribute(|conns|, lo);
      Distribute(|conns|, hi);
    }
  }

  lemma Distribute(n: nat, k: nat)
    requires n > 0
    ensures n * k == k + (n - 1) * k
  {
  }

  lemma {:induction false} LeastLoaded(conns: set<Conn>, refs: multiset<Conn>) returns (c: Conn)
    requires conns != {}
    ensures c in conns && forall d :: d in conns ==> refs[c] <= refs[d]
    decreases |conns|
  {
    c :| c in conns;
    var rest := conns - {c};
    if rest != {} {
      var d := LeastLoaded(rest, refs);
      assert forall e :: e in conns ==> e == c || e in rest;
      c := if refs[d] < refs[c] then d else c;
    } else {
      assert forall e :: e in conns ==> e == c || e in rest;
    }
  }

  /** A take hands out nothing exactly when there is no connection it may hand out. */
  lemma {:induction false} TakeableUnlessFull(p: Pool)
    ensures Full(p) <==> !exists c :: Takeable(p, c)
  {
    if !Full(p) {
      assert p.conns != {};
      var c := LeastLoaded(p.conns, p.refs);
      assert Takeable(p, c);
    }
  }

  /** A take finds nothing exactly when the leases equal connections times the limit, and otherwise
      some connection can be taken. */
  lemma {:induction false} FullIsAllLeased(p: Pool)
    requires WellFormed(p)
    ensures |p.refs| <= |p.conns| * p.maxRef
    ensures Full(p) <==> |p.refs| == |p.conns| * p.maxRef
    ensures (exists c :: Takeable(p, c)) <==> |p.refs| < |p.conns| * p.maxRef
  {
    TakeableUnlessFull(p);
    hide Takeable;
    assert forall c :: c in p.conns ==> p.refs[c] <= p.maxRef by {
      forall c | c in p.conns ensures p.refs[c] <= p.maxRef {
        if c !in p.refs {
          assert p.refs[c] == 0;
        }
      }
    }
    CountBound(p.conns, p.refs, 0, p.maxRef);
    if Full(p) {
      CountBound(p.conns, p.refs, p.maxRef, p.maxRef);
    }
  }

  // ----- threads

  /** Leased: got a connection. Locked: holds its lock, running a command. Finished: about to return it. */
  datatype Pc = Leased | Locked | Finished

  datatype Client = Client(conn: Conn, pc: Pc)

  datatype State = State(pool: Pool, threads: map<Tid, Client>, locks: map<Conn, Tid>)

  datatype Step =
    | PushConn(c: Conn)
    | Take(t: Tid, conn: Conn)
    | TakeNothing(t: Tid)
    | Lock(t: Tid)
    | GiveUp(t: Tid) // no context, or the timed lock ran out
    | Unlock(t: Tid)
    | Return(t: Tid)
    | Clear

  predicate At(s: State, t: Tid, pc: Pc) { t in s.threads && s.threads[t].pc == pc }

  predicate Enabled(s: State, step: Step) {
    match step
    case PushConn(c) => c != NULL && |s.pool.conns| < s.pool.maxConn && c !in s.pool.conns
    case Take(t, c) => t !in s.threads && Takeable(s.pool, c)
    case TakeNothing(t) => t !in s.threads && Full(s.pool)
    case Lock(t) => At(s, t, Leased) && s.threads[t].conn !in s.locks
    case GiveUp(t) => At(s, t, Leased)
    case Unlock(t) => At(s, t, Locked)
    case Return(t) => At(s, t, Finished)
    case Clear => true
  }

  function Move(s: State, t: Tid, pc: Pc): map<Tid, Client>
    requires t in s.threads
  {
    s.threads[t := s.threads[t].(pc := pc)]
  }

  function Apply(s: State, step: Step): State
    requires Enabled(s, step)
  {
    match step
    case PushConn(c) => s.(pool := s.pool.(conns := s.pool.conns + {c}))
    case Take(t, c) => s.(pool := Lease(s.pool, c), threads := s.threads[t := Client(c, Leased)])
    case TakeNothing(_) => s
    case Lock(t) => s.(threads := Move(s, t, Locked), locks := s.locks[s.threads[t].conn := t])
    case GiveUp(t) => s.(threads := Move(s, t, Finished))
    case Unlock(t) => s.(threads := Move(s, t, Finished), locks := s.locks - {s.threads[t].conn})
    case Return(t) =>
      s.(pool := s.pool.(refs := s.pool.refs - multiset{s.threads[t].conn}), threads := s.threads - {t})
    case Clear => s.(pool := s.pool.(conns := {}, refs := multiset{}))
  }

  predicate CanRun(s: State, steps: seq<Step>)
    decreases |steps|
  {
    steps == [] || (Enabled(s, steps[0]) && CanRun(Apply(s, steps[0]), steps[1..]))
  }

  function Exec(s: State, steps: seq<Step>): State
    requires CanRun(s, steps)
    decreases |steps|
  {
    if steps == [] then s else Exec(Apply(s, steps[0]), steps[1..])
  }

  predicate Initial(s: State) {
    s.pool.conns == {} && s.pool.refs == multiset{} && s.threads == map[] && s.locks == map[]
  }

  // ----- what every step keeps

  function Holders(threads: map<Tid, Client>, c: Conn): set<Tid> {
    set t | t in threads && threads[t].conn == c
  }

  ghost predicate Locks(s: State) {
    && (forall c :: c in s.locks ==> s.locks[c] in s.threads && s.threads[s.locks[c]] == Client(c, Locked))
    && (forall t :: At(s, t, Locked) ==> s.threads[t].conn in s.locks && s.locks[s.threads[t].conn] == t)
  }

  ghost predicate Covered(refs: multiset<Conn>, threads: map<Tid, Client>) {
    forall c :: refs[c] <= |Holders(threads, c)|
  }

  /** What holds in all runs. */
  ghost predicate Inv(s: State) { WellFormed(s.pool) && Locks(s) && Covered(s.pool.refs, s.threads) }

  /** What holds as well in runs without clear: the counts are exact. */
  ghost predicate Exact(s: State) {
    && (forall c :: s.pool.refs[c] == |Holders(s.threads, c)|)
    && |s.pool.refs| == |s.threads|
  }

  lemma {:induction false} HoldersAdd(threads: map<Tid, Client>, t: Tid, client: Client, c: Conn)
    requires t !in threads
    ensures |Holders(threads[t := client], c)| == |Holders(threads, c)| + if client.conn == c then 1 else 0
  {
    assert Holders(threads[t := client], c) == Holders(threads, c) + if client.conn == c then {t} else {};
    assert t !in Holders(threads, c);
  }

  lemma {:induction false} HoldersRemove(threads: map<Tid, Client>, t: Tid, c: Conn)
    requires t in threads
    ensures |Holders(threads - {t}, c)| == |Holders(threads, c)| - if threads[t].conn == c then 1 else 0
    ensures threads[t].conn == c ==> |Holders(threads, c)| > 0
  {
    assert Holders(threads - {t}, c) == Holders(threads, c) - {t};
    assert threads[t].conn == c <==> t in Holders(threads, c);
  }

  lemma {:induction false} HoldersMove(s: State, t: Tid, pc: Pc, c: Conn)
    requires t in s.threads
    ensures Holders(Move(s, t, pc), c) == Holders(s.threads, c)
  {
  }

  lemma {:induction false} StepKeepsLocks(s: State, step: Step)
    requires Locks(s) && Enabled(s, step)
    ensures Locks(Apply(s, step))
  {
    hide Takeable, Full;
  }

  lemma {:induction false} StepKeepsForm(s: State, step: Step)
    requires WellFormed(s.pool) && Enabled(s, step)
    ensures WellFormed(Apply(s, step).pool)
  {
  }

  ghost predicate Counts(s: State) { Covered(s.pool.refs, s.threads) }

  lemma {:induction false} TakeKeeps(s: State, t: Tid, c: Conn)
    requires Counts(s) && Enabled(s, Take(t, c))
    ensures Counts(Apply(s, Take(t, c)))
    ensures Exact(s) ==> Exact(Apply(s, Take(t, c)))
  {
    hide Takeable;
    var s' := Apply(s, Take(t, c));
    forall d ensures |Holders(s'.threads, d)| == |Holders(s.threads, d)| + if c == d then 1 else 0 {
      HoldersAdd(s.threads, t, Client(c, Leased), d);
    }
    hide Holders;
    assert s'.threads.Keys == s.threads.Keys + {t};
  }

  lemma {:induction false} ReturnKeeps(s: State, t: Tid)
    requires Counts(s) && At(s, t, Finished)
    ensures Counts(Apply(s, Return(t)))
    ensures Exact(s) ==> Exact(Apply(s, Return(t)))
  {
    var s', c := Apply(s, Return(t)), s.threads[t].conn;
    forall d ensures |Holders(s'.threads, d)| == |Holders(s.threads, d)| - if c == d then 1 else 0 {
      HoldersRemove(s.threads, t, d);
    }
    HoldersRemove(s.threads, t, c);
    hide Holders;
    assert s'.threads.Keys == s.threads.Keys - {t};
  }

  lemma {:induction false} MoveKeeps(s: State, t: Tid, pc: Pc, s': State)
    requires Counts(s) && t in s.threads && s'.threads == Move(s, t, pc) && s'.pool == s.pool
    ensures Counts(s') && (Exact(s) ==> Exact(s'))
  {
    forall c ensures Holders(Move(s, t, pc), c) == Holders(s.threads, c) {
      HoldersMove(s, t, pc, c);
    }
    assert Move(s, t, pc).Keys == s.threads.Keys;
  }

  lemma {:induction false} StepKeepsCounts(s: State, step: Step)
    requires Counts(s) && Enabled(s, step)
    ensures Counts(Apply(s, step))
    ensures Exact(s) && step != Clear ==> Exact(Apply(s, step))
  {
    hide Takeable, Full;
    match step
    case Take(t, c) => TakeKeeps(s, t, c);
    case Lock(t) => MoveKeeps(s, t, Locked, Apply(s, step));
    case GiveUp(t) => MoveKeeps(s, t, Finished, Apply(s, step));
    case Unlock(t) => MoveKeeps(s, t, Finished, Apply(s, step));
    case Return(t) => ReturnKeeps(s, t);
    case _ =>
  }

  /** Every step keeps the invariant, and every step but clear keeps the counts exact. */
  lemma {:induction false} StepKeepsInv(s: State, step: Step)
    requires Inv(s) && Enabled(s, step)
    ensures Inv(Apply(s, step))
    ensures Exact(s) && step != Clear ==> Exact(Apply(s, step))
  {
    StepKeepsLocks(s, step);
    StepKeepsForm(s, step);
    StepKeepsCounts(s, step);
    hide WellFormed, Locks, Covered, Exact, Apply, Enabled;
  }

  lemma {:induction false} RunKeepsInv(s: State, steps: seq<Step>)
    requires Inv(s) && CanRun(s, steps)
    ensures Inv(Exec(s, steps))
    ensures Exact(s) && Clear !in steps ==> Exact(Exec(s, steps))
    decreases |steps|
  {
    if steps != [] {
      StepKeepsInv(s, steps[0]);
      hide Inv, Exact, Apply;
      RunKeepsInv(Apply(s, steps[0]), steps[1..]);
    }
  }

  lemma {:induction false} InitialHolds(s: State)
    requires Initial(s)
    ensures Inv(s) && Exact(s)
  {
    assert forall c :: Holders(s.threads, c) == {};
  }

  /** In every run, clear included: no count exceeds the limit or the leases on its connection, each
      connection lock has one holder at most, a holder always holds a lease on that very connection,
      and only a thread inside a command holds a lock, which it can always release. */
  lemma {:induction false} LeaseAndLockSafety(s: State, steps: seq<Step>)
    requires Initial(s) && CanRun(s, steps)
    ensures
      var t := Exec(s, steps);
      && (forall c :: c in t.pool.refs ==> t.pool.refs[c] <= t.pool.maxRef)
      && (forall c :: t.pool.refs[c] <= |Holders(t.threads, c)|)
      && (forall c :: c in t.locks ==> t.locks[c] in Holders(t.threads, c) && Enabled(t, Unlock(t.locks[c])))
      && (forall u :: At(t, u, Locked) ==> t.threads[u].conn in t.locks && t.locks[t.threads[u].conn] == u)
  {
    InitialHolds(s);
    RunKeepsInv(s, steps);
  }

  /** In every run without clear the counts are exact: each is the number of leases on its connection,
      they sum to the outstanding leases, and a take finds nothing exactly when the leases equal
      connections times the limit, and some connection exactly when they are fewer. */
  lemma {:induction false} CountsAreLeases(s: State, steps: seq<Step>)
    requires Initial(s) && CanRun(s, steps) && Clear !in steps
    ensures
      var t := Exec(s, steps);
      && (forall c :: t.pool.refs[c] == |Holders(t.threads, c)|)
      && |t.pool.refs| == |t.threads|
      && (Full(t.pool) <==> |t.threads| == |t.pool.conns| * t.pool.maxRef)
      && ((exists c :: Takeable(t.pool, c)) <==> |t.threads| < |t.pool.conns| * t.pool.maxRef)
  {
    InitialHolds(s);
    RunKeepsInv(s, steps);
    FullIsAllLeased(Exec(s, steps).pool);
  }

  /** Clearing a pool with a lease outstanding and pushing the connection again makes the counts
      understate the leases: exactness is lost with the first clear that drops a lease. */
  lemma {:induction false} ClearLosesCounts(s: State)
    requires Inv(s) && Exact(s)
    ensures Exact(Apply(s, Clear)) <==> s.threads == map[]
  {
    if s.threads != map[] {
      var t :| t in s.threads;
      assert t in Holders(s.threads, s.threads[t].conn);
    } else {
      assert forall c :: Holders(s.threads, c) == {};
    }
  }

  // ----- one lease from take to return

  lemma {:induction false} OneStepMore(s: State, step: Step, rest: seq<Step>)
    requires Enabled(s, step) && CanRun(Apply(s, step), rest)
    ensures CanRun(s, [step] + rest) && Exec(s, [step] + rest) == Exec(Apply(s, step), rest)
  {
    assert ([step] + rest)[1..] == rest;
  }

  /** A command on a free connection can always run, and leaves pool, threads and locks as they were. */
  lemma {:induction false} CommandRuns(s: State, t: Tid, c: Conn)
    requires t !in s.threads && Takeable(s.pool, c) && c !in s.locks
    ensures var steps := [Take(t, c), Lock(t), Unlock(t), Return(t)];
            CanRun(s, steps) && Exec(s, steps) == s
  {
    hide Takeable, Lease;
    var s1 := Apply(s, Take(t, c));
    var s2 := Apply(s1, Lock(t));
    var s3 := Apply(s2, Unlock(t));
    assert s3 == s.(pool := Lease(s.pool, c), threads := s.threads[t := Client(c, Finished)]) by {
      assert s2.locks - {c} == s.locks;
    }
    ReturnUndoes(s, t, c);
    hide Apply, Enabled;
    OneStepMore(s3, Return(t), []);
    OneStepMore(s2, Unlock(t), [Return(t)]);
    OneStepMore(s1, Lock(t), [Unlock(t), Return(t)]);
    OneStepMore(s, Take(t, c), [Lock(t), Unlock(t), Return(t)]);
  }

  lemma {:induction false} ReturnUndoes(s: State, t: Tid, c: Conn)
    requires t !in s.threads
    ensures var u := s.(pool := Lease(s.pool, c), threads := s.threads[t := Client(c, Finished)]);
            Enabled(u, Return(t)) && Apply(u, Return(t)) == s
  {
    var u := s.(pool := Lease(s.pool, c), threads := s.threads[t := Client(c, Finished)]);
    assert Apply(u, Return(t)).pool.refs == s.pool.refs && Apply(u, Return(t)).threads == s.threads;
  }

  /** So can one that finds the connection locked and gives up. */
  lemma {:induction false} GivingUpRuns(s: State, t: Tid, c: Conn)
    requires t !in s.threads && Takeable(s.pool, c)
    ensures var steps := [Take(t, c), GiveUp(t), Return(t)];
            CanRun(s, steps) && Exec(s, steps) == s
    ensures Enabled(Apply(s, Take(t, c)), Lock(t)) <==> c !in s.locks
  {
    hide Takeable, Lease;
    var s1 := Apply(s, Take(t, c));
    var s2 := Apply(s1, GiveUp(t));
    assert s2 == s.(pool := Lease(s.pool, c), threads := s.threads[t := Client(c, Finished)]);
    ReturnUndoes(s, t, c);
    hide Apply;
    OneStepMore(s2, Return(t), []);
    OneStepMore(s1, GiveUp(t), [Return(t)]);
    OneStepMore(s, Take(t, c), [GiveUp(t), Return(t)]);
  }

  // ----- balance

  /** Takes one after another, with no return between them. */
  ghost predicate Takes(p: Pool, cs: seq<Conn>)
    decreases |cs|
  {
    cs == [] || (Takeable(p, cs[0]) && Takes(Lease(p, cs[0]), cs[1..]))
  }

  ghost predicate Level(p: Pool) {
    forall c, d :: c in p.conns && d in p.conns ==> p.refs[c] <= p.refs[d] + 1
  }

  lemma {:induction false} TakesKeepLevel(p: Pool, cs: seq<Conn>)
    requires WellFormed(p) && Level(p) && Takes(p, cs)
    ensures var q := p.(refs := p.refs + multiset(cs)); WellFormed(q) && Level(q)
    decreases |cs|
  {
    if cs == [] {
      assert p.refs + multiset(cs) == p.refs;
    } else {
      assert cs == [cs[0]] + cs[1..];
      assert (p.refs + multiset{cs[0]}) + multiset(cs[1..]) == p.refs + multiset(cs);
      TakesKeepLevel(Lease(p, cs[0]), cs[1..]);
    }
  }

  /** From a fresh pool of n connections, after any k takes with no return, whichever of equally
      loaded connections each of them picked, every count is floor(k/n) or ceil(k/n), and a
      further take succeeds if and only if k is below n times the limit. */
  lemma {:induction false} TakesAreBalanced(p: Pool, cs: seq<Conn>)
    requires WellFormed(p) && p.refs == multiset{} && p.conns != {} && Takes(p, cs)
    ensures var n, k, q := |p.conns|, |cs|, p.(refs := multiset(cs));
            && (forall c :: c in p.conns ==> k / n <= q.refs[c] <= (k + n - 1) / n)
            && k <= n * p.maxRef && (k < n * p.maxRef <==> exists c :: Takeable(q, c))
  {
    var q := p.(refs := multiset(cs));
    assert p.refs + multiset(cs) == multiset(cs);
    hide Takes, Level, WellFormed, Full, Takeable;
    TakesKeepLevel(p, cs);
    TakesSucceed(p, cs);
    forall c | c in p.conns ensures |cs| / |p.conns| <= q.refs[c] <= (|cs| + |p.conns| - 1) / |p.conns| {
      LevelCount(q, c);
    }
  }

  lemma {:induction false} TakesSucceed(p: Pool, cs: seq<Conn>)
    requires WellFormed(p.(refs := multiset(cs)))
    ensures var q, most := p.(refs := multiset(cs)), |p.conns| * p.maxRef;
            |cs| <= most && (|cs| < most <==> exists c :: Takeable(q, c))
  {
    hide WellFormed, Full, Takeable;
    FullIsAllLeased(p.(refs := multiset(cs)));
  }

  lemma {:induction false} LevelCount(q: Pool, c: Conn)
    requires WellFormed(q) && Level(q) && c in q.conns
    ensures |q.conns| > 0
    ensures var n := |q.conns|; |q.refs| / n <= q.refs[c] <= (|q.refs| + n - 1) / n
  {
    LevelBounds(q, c);
    hide WellFormed, Level;
    Below(|q.refs|, |q.conns|, q.refs[c]);
    if q.refs[c] > 0 {
      Above(|q.refs|, |q.conns|, q.refs[c]);
    } else {
      assert (|q.refs| + |q.conns| - 1) / |q.conns| >= 0;
    }
  }

  lemma {:induction false} LevelBounds(q: Pool, c: Conn)
    requires WellFormed(q) && Level(q) && c in q.conns
    ensures |q.conns| > 0
    ensures |q.refs| < |q.conns| * (q.refs[c] + 1)
    ensures q.refs[c] > 0 ==> |q.refs| > |q.conns| * (q.refs[c] - 1)
  {
    assert q.conns != {};
    CountBound(q.conns, q.refs, 0, q.refs[c] + 1);
    if q.refs[c] > 0 {
      CountBound(q.conns, q.refs, q.refs[c] - 1, q.refs[c] + 1);
    }
  }

  lemma LessByFactor(n: nat, a: int, b: int)
    requires n > 0 && n * a < n * b
    ensures a < b
  {
    assert n * (b - a) == n * b - n * a;
    assert n * (b - a) > 0;
  }

  lemma Below(k: nat, n: nat, r: nat)
    requires n > 0 && k < n * (r + 1)
    ensures k / n <= r
  {
    assert n * (k / n) <= k;
    LessByFactor(n, k / n, r + 1);
  }

  lemma Above(k: nat, n: nat, r: nat)
    requires n > 0 && r > 0 && k > n * (r - 1)
    ensures r <= (k + n - 1) / n
  {
    var m := k + n - 1;
    assert n * (r - 1) == n * r - n;
    assert m < n * (m / n) + n == n * (m / n + 1);
    LessByFactor(n, r, m / n + 1);
  }
}
