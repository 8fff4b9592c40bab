/** ListenEventHandler: handing accepted clients to workers, first available first, and moving a
    chosen worker to the tail of the list. */
module Dispatcher {
  import opened Wrappers

  type Worker = nat

  /** One accepted client. available: the workers that run and have room. added: addEvent succeeds. */
  datatype Round = Round(available: set<Worker>, added: bool)

  /** Index of the first available worker, or the length. */
  function FirstAvailable(ws: seq<Worker>, available: set<Worker>): (i: nat)
    ensures i <= |ws| && (i < |ws| ==> ws[i] in available)
    ensures forall k :: 0 <= k < i ==> ws[k] !in available
  {
    if ws == [] || ws[0] in available then 0 else 1 + FirstAvailable(ws[1..], available)
  }

  predicate Assigns(ws: seq<Worker>, r: Round) { FirstAvailable(ws, r.available) < |ws| && r.added }

  function Chosen(ws: seq<Worker>, r: Round): Worker
    requires Assigns(ws, r)
  {
    ws[FirstAvailable(ws, r.available)]
  }

  /** erase then push_back. */
  function ToTail(ws: seq<Worker>, i: nat): seq<Worker>
    requires i < |ws|
  {
    ws[..i] + ws[i + 1..] + [ws[i]]
  }

  function Next(ws: seq<Worker>, r: Round): seq<Worker> {
    if Assigns(ws, r) then ToTail(ws, FirstAvailable(ws, r.available)) else ws
  }

  function Run(ws: seq<Worker>, rounds: seq<Round>): seq<Worker>
    decreases |rounds|
  {
    if rounds == [] then ws else Run(Next(ws, rounds[0]), rounds[1..])
  }

  /** The workers given a client, in order. */
  function Assignments(ws: seq<Worker>, rounds: seq<Round>): seq<Worker>
    decreases |rounds|
  {
    if rounds == [] then []
    else Turn(ws, rounds[0]) + Assignments(Next(ws, rounds[0]), rounds[1..])
  }

  function Turn(ws: seq<Worker>, r: Round): seq<Worker> {
    if Assigns(ws, r) then [Chosen(ws, r)] else []
  }

  /** A client is assigned exactly when it can be added and some listed worker is available: to the first
      such worker, which then moves behind all others. Otherwise the list stays as it is. */
  lemma {:induction false} AssignsExactly(ws: seq<Worker>, r: Round)
    ensures Turn(ws, r) != [] <==> r.added && exists w :: w in ws && w in r.available
    ensures Turn(ws, r) == [] ==> Next(ws, r) == ws
    ensures Turn(ws, r) != [] ==>
      exists i :: && 0 <= i < |ws| && Turn(ws, r) == [ws[i]] && ws[i] in r.available
                  && (forall k :: 0 <= k < i ==> ws[k] !in r.available)
                  && Next(ws, r) == ws[..i] + ws[i + 1..] + [ws[i]]
  {
    var i := FirstAvailable(ws, r.available);
    if i < |ws| {
      assert ws[i] in ws && ws[i] in r.available;
    }
  }

  /** The rounds whose client can be added and finds some listed worker available. */
  ghost function Servable(ws: seq<Worker>, rounds: seq<Round>): nat
    decreases |rounds|
  {
    if rounds == [] then 0
    else
      (if rounds[0].added && exists w :: w in ws && w in rounds[0].available then 1 else 0) + Servable(ws, rounds[1..])
  }

  lemma {:induction false} SameServable(ws: seq<Worker>, vs: seq<Worker>, rounds: seq<Round>)
    requires multiset(ws) == multiset(vs)
    ensures Servable(ws, rounds) == Servable(vs, rounds)
    decreases |rounds|
  {
    if rounds != [] {
      assert forall w :: w in ws <==> w in multiset(ws);
      assert forall w :: w in vs <==> w in multiset(vs);
      SameServable(ws, vs, rounds[1..]);
    }
  }

  lemma {:induction false} NextKeepsMembers(ws: seq<Worker>, r: Round)
    ensures multiset(Next(ws, r)) == multiset(ws)
  {
    if Assigns(ws, r) {
      var i := FirstAvailable(ws, r.available);
      assert ws == ws[..i] + [ws[i]] + ws[i + 1..];
    }
  }

  /** Every client that can be served is: over any rounds, as many are assigned as could be. */
  lemma {:induction false} NoneTurnedAway(ws: seq<Worker>, rounds: seq<Round>)
    ensures |Assignments(ws, rounds)| == Servable(ws, rounds)
    decreases |rounds|
  {
    if rounds != [] {
      AssignsExactly(ws, rounds[0]);
      NextKeepsMembers(ws, rounds[0]);
      SameServable(ws, Next(ws, rounds[0]), rounds[1..]);
      NoneTurnedAway(Next(ws, rounds[0]), rounds[1..]);
      assert |Turn(ws, rounds[0])| <= 1;
    }
  }

  // ----- the list stays a list of the same workers

  lemma {:induction false} ToTailKeeps(ws: seq<Worker>, i: nat)
    requires i < |ws| && Distinct(ws)
    ensures Distinct(ToTail(ws, i)) && multiset(ToTail(ws, i)) == multiset(ws) && |ToTail(ws, i)| == |ws|
  {
    var t := ToTail(ws, i);
    assert ws == ws[..i] + [ws[i]] + ws[i + 1..];
    assert forall k :: 0 <= k < |t| ==> t[k] == ws[if k < i then k else if k < |ws| - 1 then k + 1 else i];
  }

  lemma {:induction false} RunKeepsWorkers(ws: seq<Worker>, rounds: seq<Round>)
    requires Distinct(ws)
    ensures Distinct(Run(ws, rounds)) && multiset(Run(ws, rounds)) == multiset(ws) && |Run(ws, rounds)| == |ws|
    decreases |rounds|
  {
    if rounds != [] {
      if Assigns(ws, rounds[0]) {
        ToTailKeeps(ws, FirstAvailable(ws, rounds[0].available));
      }
      RunKeepsWorkers(Next(ws, rounds[0]), rounds[1..]);
    }
  }

  // ----- the list is ordered by last assignment

  /** Number of the last assignment of w, counting from 1; 0 if it never had one. */
  function LastTurn(log: seq<Worker>, w: Worker): (n: nat)
    ensures n <= |log| && (n == 0 <==> w !in log)
    ensures n > 0 ==> log[n - 1] == w
  {
    if log == [] then 0 else if log[|log| - 1] == w then |log| else LastTurn(log[..|log| - 1], w)
  }

  ghost predicate Before(ws: seq<Worker>, a: Worker, b: Worker) {
    exists i, j :: 0 <= i < j < |ws| && ws[i] == a && ws[j] == b
  }

  /** The last assignment of a lies further back than that of b; of two workers never assigned, the
      one listed first counts as older. */
  ghost predicate Older(first: seq<Worker>, log: seq<Worker>, a: Worker, b: Worker) {
    || LastTurn(log, a) < LastTurn(log, b)
    || (LastTurn(log, a) == 0 == LastTurn(log, b) && Before(first, a, b))
  }

  ghost predicate OrderedByTurn(ws: seq<Worker>, first: seq<Worker>, log: seq<Worker>) {
    forall i, j :: 0 <= i < j < |ws| ==> Older(first, log, ws[i], ws[j])
  }

  lemma {:induction false} LastTurnAppend(log: seq<Worker>, c: Worker, w: Worker)
    ensures LastTurn(log + [c], w) == if w == c then |log| + 1 else LastTurn(log, w)
  {
    assert (log + [c])[..|log|] == log;
  }

  lemma {:induction false} OlderAfter(first: seq<Worker>, log: seq<Worker>, c: Worker, a: Worker, b: Worker)
    requires a != c && (b == c || Older(first, log, a, b))
    ensures Older(first, log + [c], a, b)
  {
    LastTurnAppend(log, c, a);
    LastTurnAppend(log, c, b);
  }

  lemma {:induction false} NextKeepsOrder(ws: seq<Worker>, first: seq<Worker>, log: seq<Worker>, r: Round)
    requires Distinct(ws) && OrderedByTurn(ws, first, log) && Assigns(ws, r)
    ensures OrderedByTurn(Next(ws, r), first, log + [Chosen(ws, r)])
  {
    var i, t := FirstAvailable(ws, r.available), Next(ws, r);
    var c := ws[i];
    hide Older, FirstAvailable;
    forall a, b | 0 <= a < b < |t| ensures Older(first, log + [c], t[a], t[b]) {
      ToTailAt(ws, i, a, b);
      OlderAfter(first, log, c, t[a], t[b]);
    }
  }

  lemma {:induction false} ToTailAt(ws: seq<Worker>, i: nat, a: nat, b: nat)
    requires Distinct(ws) && i < |ws| && a < b < |ws|
    ensures var t := ToTail(ws, i);
            && |t| == |ws| && t[a] != ws[i]
            && (t[b] == ws[i] || exists j, k :: 0 <= j < k < |ws| && t[a] == ws[j] && t[b] == ws[k])
  {
    var t := ToTail(ws, i);
    var j := if a < i then a else a + 1;
    assert t[a] == ws[j];
    if b < |ws| - 1 {
      var k := if b < i then b else b + 1;
      assert t[b] == ws[k] && j < k;
    } else {
      assert t[b] == ws[i];
    }
  }

  lemma {:induction false} RunKeepsOrder(ws: seq<Worker>, first: seq<Worker>, log: seq<Worker>, rounds: seq<Round>)
    requires Distinct(ws) && OrderedByTurn(ws, first, log)
    ensures OrderedByTurn(Run(ws, rounds), first, log + Assignments(ws, rounds))
    decreases |rounds|
  {
    if rounds == [] {
      assert log + [] == log;
    } else {
      var r := rounds[0];
      NextKeepsDistinct(ws, r);
      TurnKeepsOrder(ws, first, log, r);
      hide OrderedByTurn, Distinct, Next, Turn;
      RunKeepsOrder(Next(ws, r), first, log + Turn(ws, r), rounds[1..]);
      Associate(log, Turn(ws, r), Assignments(Next(ws, r), rounds[1..]));
    }
  }

  lemma {:induction false} TurnKeepsOrder(ws: seq<Worker>, first: seq<Worker>, log: seq<Worker>, r: Round)
    requires Distinct(ws) && OrderedByTurn(ws, first, log)
    ensures OrderedByTurn(Next(ws, r), first, log + Turn(ws, r))
  {
    if Assigns(ws, r) {
      NextKeepsOrder(ws, first, log, r);
    } else {
      assert log + [] == log;
    }
  }

  lemma {:induction false} NextKeepsDistinct(ws: seq<Worker>, r: Round)
    requires Distinct(ws)
    ensures Distinct(Next(ws, r))
  {
    if Assigns(ws, r) {
      ToTailKeeps(ws, FirstAvailable(ws, r.available));
    }
  }

  /** After any rounds from a fresh list, the list holds the same workers, and the next choice is the
      available worker whose last assignment lies furthest back. */
  lemma {:induction false} LeastRecentlyAssigned(first: seq<Worker>, rounds: seq<Round>, r: Round, w: Worker)
    requires Distinct(first)
    ensures multiset(Run(first, rounds)) == multiset(first)
    ensures var ws, log := Run(first, rounds), Assignments(first, rounds);
            Assigns(ws, r) && w in ws && w in r.available && w != Chosen(ws, r) ==>
              Older(first, log, Chosen(ws, r), w)
  {
    RunKeepsWorkers(first, rounds);
    assert OrderedByTurn(first, first, []);
    RunKeepsOrder(first, first, [], rounds);
    var ws, log := Run(first, rounds), Assignments(first, rounds);
    assert [] + log == log;
    hide Older;
    if Assigns(ws, r) && w in ws && w in r.available && w != Chosen(ws, r) {
      var j :| 0 <= j < |ws| && ws[j] == w;
      var i := FirstAvailable(ws, r.available);
      assert i < j;
    }
  }

  // ----- fairness

  /** A worker available in every round, at position p, gets one of the first p + 1 assignments. */
  lemma {:induction false} ChosenWithin(ws: seq<Worker>, rounds: seq<Round>, p: nat)
    requires p < |ws| && |Assignments(ws, rounds)| >= p + 1
    requires forall k :: 0 <= k < |rounds| ==> ws[p] in rounds[k].available
    ensures ws[p] in Assignments(ws, rounds)[..p + 1]
    decreases |rounds|
  {
    var w, r := ws[p], rounds[0];
    var more := Assignments(Next(ws, r), rounds[1..]);
    if Assigns(ws, r) {
      var i := FirstAvailable(ws, r.available);
      assert i <= p;
      assert Assignments(ws, rounds) == [Chosen(ws, r)] + more;
      if i < p {
        assert Next(ws, r)[p - 1] == w;
        ChosenWithin(Next(ws, r), rounds[1..], p - 1);
        assert Assignments(ws, rounds)[..p + 1] == [Chosen(ws, r)] + more[..p];
      } else {
        assert Assignments(ws, rounds)[0] == w;
      }
    } else {
      assert Assignments(ws, rounds) == more;
      ChosenWithin(ws, rounds[1..], p);
    }
  }

  /** So no available worker is passed over for long: among any n assignments in a row, n the number of
      workers, every worker available throughout occurs. */
  lemma {:induction false} NoStarvation(first: seq<Worker>, before: seq<Round>, rounds: seq<Round>, w: Worker)
    requires Distinct(first) && w in first
    requires forall k :: 0 <= k < |rounds| ==> w in rounds[k].available
    requires |Assignments(Run(first, before), rounds)| >= |first|
    ensures w in Assignments(Run(first, before), rounds)[..|first|]
  {
    RunKeepsWorkers(first, before);
    var ws := Run(first, before);
    assert w in multiset(ws);
    var p :| 0 <= p < |ws| && ws[p] == w;
    ChosenWithin(ws, rounds, p);
    assert Assignments(ws, rounds)[..p + 1] <= Assignments(ws, rounds)[..|first|];
  }

  // ----- the handler

  class ListenEventHandler {
    var ioWorkers: seq<Worker>

    constructor (workers: seq<Worker>)
      ensures ioWorkers == workers
    {
      ioWorkers := workers;
    }

    /** The scan for an IO worker. */
    method FindWorker(available: set<Worker>) returns (i: nat)
      ensures i == FirstAvailable(ioWorkers, available)
    {
      i := 0;
      while i < |ioWorkers| && ioWorkers[i] !in available
        invariant i <= |ioWorkers| && forall k :: 0 <= k < i ==> ioWorkers[k] !in available
      {
        i := i + 1;
      }
    }

    /** The accept loop over the clients that wait: who gets each of them, and the list afterwards. */
    method Handle(rounds: seq<Round>) returns (log: seq<Worker>)
      modifies this
      ensures ioWorkers == Run(old(ioWorkers), rounds) && log == Assignments(old(ioWorkers), rounds)
      ensures |log| == Servable(old(ioWorkers), rounds)
    {
      NoneTurnedAway(ioWorkers, rounds);
      log := [];
      var n := 0;
      RoundsBegin(ioWorkers, rounds);
      hide Run, Assignments;
      while n < |rounds|
        invariant n <= |rounds|
        invariant Run(old(ioWorkers), rounds) == Run(ioWorkers, rounds[n..])
        invariant Assignments(old(ioWorkers), rounds) == log + Assignments(ioWorkers, rounds[n..])
      {
        var r := rounds[n];
        ghost var ws := ioWorkers;
        RoundStep(ws, rounds, n, log);
        var i := FindWorker(r.available);
        if i < |ioWorkers| && r.added {
          var cur := ioWorkers[i];
          ioWorkers := ioWorkers[..i] + ioWorkers[i + 1..] + [cur];
          log := log + [cur];
        } else {
          assert log + [] == log;
        }
        assert ioWorkers == Next(ws, r);
        n := n + 1;
      }
      RoundsEnd(ioWorkers, log);
      assert rounds[n..] == [];
    }
  }

  lemma RoundsBegin(ws: seq<Worker>, rounds: seq<Round>)
    ensures rounds[0..] == rounds && [] + Assignments(ws, rounds[0..]) == Assignments(ws, rounds)
  {
  }

  lemma RoundsEnd(ws: seq<Worker>, log: seq<Worker>)
    ensures Run(ws, []) == ws && log + Assignments(ws, []) == log
  {
  }

  lemma {:induction false} RoundStep(ws: seq<Worker>, rounds: seq<Round>, n: nat, log: seq<Worker>)
    requires n < |rounds|
    ensures Run(ws, rounds[n..]) == Run(Next(ws, rounds[n]), rounds[n + 1..])
    ensures log + Assignments(ws, rounds[n..]) ==
            (log + Turn(ws, rounds[n])) + Assignments(Next(ws, rounds[n]), rounds[n + 1..])
  {
    assert rounds[n..][0] == rounds[n] && rounds[n..][1..] == rounds[n + 1..];
    Associate(log, Turn(ws, rounds[n]), Assignments(Next(ws, rounds[n]), rounds[n + 1..]));
  }
}
