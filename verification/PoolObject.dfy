/** The pool object as the program updates it, with its unsigned arithmetic, and its refinement of
    the protocol's pool. */
module PoolObject {
  import opened RedisPool

  // unsigned is 32 bits wide
  const UINT_RANGE: nat := 0x1_0000_0000

  datatype Error = SERVER_OK | REDIS_POOL_CONN_NULL | REDIS_POOL_MAXCONN | REDIS_POOL_CONNEXIST

  /** What the table of counts stands for. */
  ghost predicate Represents(refs: map<Conn, nat>, p: Pool) {
    p.conns == refs.Keys && forall c :: p.refs[c] == if c in refs then refs[c] else 0
  }

  class RedisConnectionPool {
    var order: seq<Conn> // the keys in the map's own order
    var refs: map<Conn, nat>
    const maxRef: nat
    const maxConn: nat

    ghost predicate Valid()
      reads this
    {
      && maxRef < UINT_RANGE
      && (forall c :: c in order <==> c in refs)
      && |order| == |refs|
      && (NULL in refs ==> maxRef + 1 == UINT_RANGE)
      && forall c :: c in refs ==> refs[c] <= maxRef
    }

    constructor (maxConn: nat, maxRef: nat)
      requires maxRef < UINT_RANGE
      ensures Valid() && refs == map[] && this.maxConn == maxConn && this.maxRef == maxRef
    {
      this.maxConn, this.maxRef, order, refs := maxConn, maxRef, [], map[];
    }

    method PushConnection(c: Conn) returns (error: Error)
      requires Valid()
      modifies this
      ensures Valid()
      ensures error == if c == NULL then REDIS_POOL_CONN_NULL
                       else if |old(refs)| >= maxConn then REDIS_POOL_MAXCONN
                       else if c in old(refs) then REDIS_POOL_CONNEXIST else SERVER_OK
      ensures refs == if error == SERVER_OK then old(refs)[c := 0] else old(refs)
    {
      if c == NULL {
        return REDIS_POOL_CONN_NULL;
      }
      if |order| >= maxConn {
        return REDIS_POOL_MAXCONN;
      }
      if c in refs {
        return REDIS_POOL_CONNEXIST;
      }
      var pos :| 0 <= pos <= |order|; // wherever the key sorts
      ghost var before := order;
      order := order[..pos] + [c] + order[pos..];
      refs := refs[c := 0];
      InsertedKeys(before, c, pos);
      error := SERVER_OK;
    }

    /** The scan of getOneConnection, from the start value the unsigned addition gives. */
    method Scan() returns (c: Conn, minref: nat)
      requires Valid()
      ensures var start := (maxRef + 1) % UINT_RANGE;
              && minref <= start && (forall d :: d in refs ==> minref <= refs[d])
              && if minref == start then c == NULL else c in refs && refs[c] == minref
    {
      c, minref := NULL, (maxRef + 1) % UINT_RANGE;
      ghost var start := minref;
      var i := 0;
      while i < |order|
        invariant i <= |order| && minref <= start && forall k :: 0 <= k < i ==> minref <= refs[order[k]]
        invariant if minref == start then c == NULL else c in refs && refs[c] == minref
      {
        if refs[order[i]] < minref {
          c, minref := order[i], refs[order[i]];
        }
        i := i + 1;
      }
      assert forall d :: d in refs ==> d in order && minref <= refs[d];
    }

    /** getOneConnection. Below the largest limit it hands out a least loaded connection with room,
        counting it, and null exactly when there is none. At the largest limit the start value of
        the scan wraps to zero: nothing is ever chosen, and each call files one more reference, itself
        wrapping, under the null connection. */
    method GetOneConnection() returns (c: Conn)
      requires Valid()
      modifies this
      ensures Valid()
      ensures maxRef + 1 < UINT_RANGE ==>
        && (c == NULL <==> forall d :: d in old(refs) ==> old(refs[d]) == maxRef)
        && (c == NULL ==> refs == old(refs))
        && (c != NULL ==>
             && c in old(refs) && old(refs[c]) < maxRef
             && (forall d :: d in old(refs) ==> old(refs[c]) <= old(refs[d]))
             && refs == old(refs)[c := old(refs[c]) + 1])
      ensures maxRef + 1 == UINT_RANGE ==>
        c == NULL && refs == old(refs)[NULL := if NULL in old(refs) then (old(refs[NULL]) + 1) % UINT_RANGE else 1]
    {
      var minref;
      c, minref := Scan();
      if minref >= maxRef {
        return NULL;
      }
      if c in refs {
        refs := refs[c := (refs[c] + 1) % UINT_RANGE];
      } else {
        order, refs := [c] + order, refs[c := 1];
      }
    }

    method ReturnConnection(c: Conn)
      requires Valid()
      modifies this
      ensures Valid()
      ensures refs == if c != NULL && c in old(refs) && old(refs[c]) != 0
                      then old(refs)[c := old(refs[c]) - 1] else old(refs)
    {
      if c != NULL && c in refs && refs[c] != 0 {
        refs := refs[c := refs[c] - 1];
      }
    }

    method Clear()
      requires Valid()
      modifies this
      ensures Valid() && refs == map[]
    {
      order, refs := [], map[];
    }
  }

  lemma {:induction false} InsertedKeys(order: seq<Conn>, c: Conn, pos: nat)
    requires pos <= |order|
    ensures forall d :: d in order[..pos] + [c] + order[pos..] <==> d == c || d in order
  {
    assert order == order[..pos] + order[pos..];
  }

  /** The object's take is a take of the protocol: the choice is one the protocol allows, null is its
      finding nothing, and the new table stands for the protocol's new pool. */
  lemma {:induction false} TakeRefines(refs: map<Conn, nat>, p: Pool, c: Conn)
    requires Represents(refs, p) && forall d :: d in refs ==> refs[d] <= p.maxRef
    ensures (forall d :: d in refs ==> refs[d] == p.maxRef) <==> Full(p)
    ensures c in refs && refs[c] < p.maxRef && (forall d :: d in refs ==> refs[c] <= refs[d]) <==> Takeable(p, c)
    ensures c in refs ==> Represents(refs[c := refs[c] + 1], Lease(p, c))
  {
    assert forall d :: d in refs ==> p.refs[d] == refs[d];
    if c in refs {
      assert refs[c := refs[c] + 1].Keys == refs.Keys;
    }
  }

  /** Likewise a return and a push. */
  lemma {:induction false} ReturnAndPushRefine(refs: map<Conn, nat>, p: Pool, c: Conn)
    requires Represents(refs, p)
    ensures Represents(if c in refs && refs[c] != 0 then refs[c := refs[c] - 1] else refs,
                       p.(refs := p.refs - multiset{c}))
    ensures c !in refs ==> Represents(refs[c := 0], p.(conns := p.conns + {c}))
  {
    if c in refs && refs[c] != 0 {
      assert refs[c := refs[c] - 1].Keys == refs.Keys;
    }
  }

  /** And these are the protocol's steps: what the object refuses the protocol does not enable, and what it
      does leads to a table that stands for the protocol's next pool. First a push and a clear. */
  lemma {:induction false} PushAndClearAreSteps(refs: map<Conn, nat>, s: State, c: Conn)
    requires Represents(refs, s.pool)
    ensures Enabled(s, PushConn(c)) <==> c != NULL && |refs| < s.pool.maxConn && c !in refs
    ensures Enabled(s, PushConn(c)) ==> Represents(refs[c := 0], Apply(s, PushConn(c)).pool)
    ensures Represents(map[], Apply(s, Clear).pool)
  {
    hide Represents;
    RepresentsKeys(refs, s.pool);
    ReturnAndPushRefine(refs, s.pool, c);
    RepresentsNone(s.pool);
  }

  /** Then a take, with and without success. */
  lemma {:induction false} TakeIsStep(refs: map<Conn, nat>, s: State, t: Tid, c: Conn)
    requires Represents(refs, s.pool) && (forall d :: d in refs ==> refs[d] <= s.pool.maxRef) && t !in s.threads
    ensures Enabled(s, TakeNothing(t)) <==> forall d :: d in refs ==> refs[d] == s.pool.maxRef
    ensures Enabled(s, TakeNothing(t)) ==> Represents(refs, Apply(s, TakeNothing(t)).pool)
    ensures Enabled(s, Take(t, c)) <==>
            c in refs && refs[c] < s.pool.maxRef && forall d :: d in refs ==> refs[c] <= refs[d]
    ensures Enabled(s, Take(t, c)) ==> Represents(refs[c := refs[c] + 1], Apply(s, Take(t, c)).pool)
  {
    hide Takeable, Full, Represents, Lease;
    TakeRefines(refs, s.pool, c);
  }

  /** And a return. */
  lemma {:induction false} ReturnIsStep(refs: map<Conn, nat>, s: State, t: Tid)
    requires Represents(refs, s.pool) && At(s, t, Finished)
    ensures var d := s.threads[t].conn;
            Represents(if d in refs && refs[d] != 0 then refs[d := refs[d] - 1] else refs, Apply(s, Return(t)).pool)
  {
    hide Represents;
    ReturnAndPushRefine(refs, s.pool, s.threads[t].conn);
  }

  lemma {:induction false} RepresentsKeys(refs: map<Conn, nat>, p: Pool)
    requires Represents(refs, p)
    ensures p.conns == refs.Keys && |p.conns| == |refs|
  {
    assert |refs.Keys| == |refs|;
  }

  lemma RepresentsNone(p: Pool)
    ensures Represents(map[], p.(conns := {}, refs := multiset{}))
  {
  }
}
