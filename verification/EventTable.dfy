/** Epoll, Event and Worker as a protocol: the table of events mirrors the kernel's interest set while
    the listening thread adds and the worker's own thread waits, handles and deletes. */
module EventTable {
  import opened Wrappers

  type Fd = nat
  type Id = nat // an Event object

  /** Event: its descriptor, open as long as the object lives, and whether it names its worker. */
  datatype Event = Event(fd: Fd, named: bool)

  /** The adding thread, with the event it has made: made, worker set, room checked, or between
      epoll_ctl and the table update, holding the table lock. */
  datatype AdderPc = Idle | Made(e: Id) | Named(e: Id) | Checked(e: Id) | Adding(e: Id)

  /** The worker's thread: in epoll_wait, back from it with ready descriptors, handling a batch, or
      between epoll_ctl and the table update of a delete, holding the table lock. */
  datatype WorkerPc =
    | Polling
    | Woken(ready: seq<Fd>)
    | Batch(todo: seq<Id>, over: seq<Id>)
    | Deleting(todo: seq<Id>, over: seq<Id>)

  datatype State = State(
    kernel: set<Fd>, table: map<Fd, Id>, events: map<Id, Event>, maxFDS: nat, adder: AdderPc, worker: WorkerPc)

  datatype Step =
    | Accept(e: Id, fd: Fd)
    | SetWorker
    | CheckRoom
    | CtlAdd(ok: bool)
    | Insert
    | Wait(ready: seq<Fd>)
    | Lookup
    | CtlDel
    | Erase
    | Release

  predicate LockFree(s: State) { !s.adder.Adding? && !s.worker.Deleting? }

  predicate Enabled(s: State, step: Step) {
    match step
    case Accept(e, fd) => s.adder == Idle && e !in s.events && forall x :: x in s.events ==> s.events[x].fd != fd
    case SetWorker => s.adder.Made? && s.adder.e in s.events
    case CheckRoom => s.adder.Named? && s.adder.e in s.events && LockFree(s)
    case CtlAdd(ok) =>
      s.adder.Checked? && s.adder.e in s.events && LockFree(s) && (ok ==> s.events[s.adder.e].fd !in s.kernel)
    case Insert => s.adder.Adding? && s.adder.e in s.events
    case Wait(ready) => s.worker == Polling && Distinct(ready) && forall fd :: fd in ready ==> fd in s.kernel
    case Lookup => s.worker.Woken? && LockFree(s)
    case CtlDel => s.worker.Batch? && s.worker.todo != [] && s.worker.todo[0] in s.events && LockFree(s)
    case Erase => s.worker.Deleting? && s.worker.todo != [] && s.worker.todo[0] in s.events
    case Release => s.worker.Batch? && s.worker.todo == []
  }

  /** The loop of epollWait over the ready descriptors; one that is not in the table is skipped. */
  function Found(ready: seq<Fd>, table: map<Fd, Id>): seq<Id> {
    if ready == [] then []
    else (if ready[0] in table then [table[ready[0]]] else []) + Found(ready[1..], table)
  }

  function Apply(s: State, step: Step): State
    requires Enabled(s, step)
  {
    match step
    case Accept(e, fd) => s.(events := s.events[e := Event(fd, false)], adder := Made(e))
    case SetWorker =>
      s.(events := s.events[s.adder.e := s.events[s.adder.e].(named := true)], adder := Named(s.adder.e))
    case CheckRoom =>
      if |s.table| < s.maxFDS then s.(adder := Checked(s.adder.e))
      else s.(events := s.events - {s.adder.e}, adder := Idle)
    case CtlAdd(ok) =>
      if ok then s.(kernel := s.kernel + {s.events[s.adder.e].fd}, adder := Adding(s.adder.e))
      else s.(events := s.events - {s.adder.e}, adder := Idle)
    case Insert => s.(table := s.table[s.events[s.adder.e].fd := s.adder.e], adder := Idle)
    case Wait(ready) => s.(worker := Woken(ready))
    case Lookup => s.(worker := Batch(Found(s.worker.ready, s.table), []))
    case CtlDel =>
      var e, todo, over := s.worker.todo[0], s.worker.todo, s.worker.over;
      if s.events[e].fd in s.kernel
      then s.(kernel := s.kernel - {s.events[e].fd}, worker := Deleting(todo, over))
      else s.(worker := Batch(todo[1..], over + [e])) // epoll_ctl fails, the table is left alone
    case Erase =>
      var e := s.worker.todo[0];
      s.(table := s.table - {s.events[e].fd}, worker := Batch(s.worker.todo[1..], s.worker.over + [e]))
    case Release =>
      s.(events := map e | e in s.events && (e !in s.worker.over || s.events[e].fd in s.table) :: s.events[e],
         worker := Polling)
  }

  predicate CanRun(s: State, steps: seq<Step>)
    decreases |steps|
  {
    steps == [] || (Enabled(s, steps[0]) && CanRun(Apply(s, steps[0]), steps[1..]))
  }

  function Exec(s: State, steps: seq<Step>): State
    requires CanRun(s, steps)
    decreases |steps|
  {
    if steps == [] then s else Exec(Apply(s, steps[0]), steps[1..])
  }

  lemma {:induction false} OneStepMore(s: State, step: Step, rest: seq<Step>)
    requires Enabled(s, step) && CanRun(Apply(s, step), rest)
    ensures CanRun(s, [step] + rest) && Exec(s, [step] + rest) == Exec(Apply(s, step), rest)
  {
    assert ([step] + rest)[1..] == rest;
  }

  predicate Initial(s: State) {
    s.kernel == {} && s.table == map[] && s.events == map[] && s.adder == Idle && s.worker == Polling
  }

  // ----- the invariant

  /** At most one live event per descriptor. */
  ghost predicate OnePerFd(s: State) {
    forall x, y :: x in s.events && y in s.events && s.events[x].fd == s.events[y].fd ==> x == y
  }

  /** A table entry is a live event for its descriptor that names its worker. */
  ghost predicate TableSound(s: State) {
    forall fd :: fd in s.table ==> s.table[fd] in s.events && s.events[s.table[fd]] == Event(fd, true)
  }

  /** The event the adding thread works on is live and not in the table yet. */
  ghost predicate AdderSound(s: State) {
    s.adder != Idle ==>
      && s.adder.e in s.events
      && s.events[s.adder.e].fd !in s.table
      && (s.adder.Made? <==> !s.events[s.adder.e].named)
  }

  ghost predicate Mirrors(s: State) {
    s.kernel ==
      if s.adder.Adding? && s.adder.e in s.events then s.table.Keys + {s.events[s.adder.e].fd}
      else if s.worker.Deleting? && s.worker.todo != [] && s.worker.todo[0] in s.events
      then s.table.Keys - {s.events[s.worker.todo[0]].fd}
      else s.table.Keys
  }

  ghost predicate RoomLeft(s: State) {
    |s.table| <= s.maxFDS && (s.adder.Checked? || s.adder.Adding? ==> |s.table| < s.maxFDS)
  }

  /** Listed: live, in the table under its own descriptor, each once. */
  ghost predicate Listed(s: State, todo: seq<Id>) {
    Distinct(todo) &&
    forall i :: 0 <= i < |todo| ==>
      todo[i] in s.events && s.events[todo[i]].fd in s.table && s.table[s.events[todo[i]].fd] == todo[i]
  }

  ghost predicate WorkerSound(s: State) {
    match s.worker
    case Polling => true
    case Woken(ready) => Distinct(ready) && forall fd :: fd in ready ==> fd in s.table.Keys || Arriving(s, fd)
    case Batch(todo, over) => Listed(s, todo) && Done(s, over)
    case Deleting(todo, over) => Listed(s, todo) && todo != [] && Done(s, over) && !s.adder.Adding?
  }

  /** Handled events are live until released, and not the adding thread's. */
  ghost predicate Done(s: State, over: seq<Id>) {
    forall e :: e in over ==> e in s.events && s.events[e].fd !in s.table && (s.adder == Idle || s.adder.e != e)
  }

  /** A descriptor the kernel knows and the table is about to. */
  ghost predicate Arriving(s: State, fd: Fd) {
    s.adder.Adding? && s.adder.e in s.events && s.events[s.adder.e].fd == fd
  }

  ghost predicate Inv(s: State) {
    OnePerFd(s) && TableSound(s) && AdderSound(s) && Mirrors(s) && RoomLeft(s) && WorkerSound(s)
  }

  lemma {:induction false} FoundAppend(ready: seq<Fd>, fd: Fd, table: map<Fd, Id>)
    ensures Found(ready + [fd], table) == Found(ready, table) + if fd in table then [table[fd]] else []
  {
    var last := if fd in table then [table[fd]] else [];
    if ready == [] {
      assert ready + [fd] == [fd] && [fd][1..] == [];
    } else {
      assert (ready + [fd])[1..] == ready[1..] + [fd];
      FoundAppend(ready[1..], fd, table);
      Associate(if ready[0] in table then [table[ready[0]]] else [], Found(ready[1..], table), last);
    }
  }

  lemma {:induction false} FoundAll(ready: seq<Fd>, s: State)
    requires Distinct(ready) && TableSound(s) && forall fd :: fd in ready ==> fd in s.table
    ensures var found := Found(ready, s.table);
            |found| == |ready| && (forall i :: 0 <= i < |ready| ==> found[i] == s.table[ready[i]])
  {
    if ready != [] {
      var rest := ready[1..];
      assert forall i :: 0 <= i < |rest| ==> rest[i] == ready[i + 1];
      FoundAll(rest, s);
    }
  }

  /** A look-up under the lock finds every descriptor the kernel reported: none is skipped. */
  lemma {:induction false} LookupIsComplete(s: State)
    requires Inv(s) && Enabled(s, Lookup)
    ensures var batch := Apply(s, Lookup).worker.todo;
            && |batch| == |s.worker.ready|
            && (forall i :: 0 <= i < |batch| ==>
                 batch[i] in s.events && s.events[batch[i]] == Event(s.worker.ready[i], true))
    ensures Listed(s, Apply(s, Lookup).worker.todo)
  {
    FoundAll(s.worker.ready, s);
  }

  // ----- every step keeps it

  lemma {:induction false} AcceptKeepsWorker(s: State, e: Id, fd: Fd)
    requires WorkerSound(s) && Enabled(s, Accept(e, fd))
    ensures WorkerSound(Apply(s, Accept(e, fd)))
  {
  }

  lemma {:induction false} AcceptKeepsEvents(s: State, e: Id, fd: Fd)
    requires OnePerFd(s) && TableSound(s) && Mirrors(s) && Enabled(s, Accept(e, fd))
    ensures OnePerFd(Apply(s, Accept(e, fd))) && TableSound(Apply(s, Accept(e, fd))) && Mirrors(Apply(s, Accept(e, fd)))
  {
  }

  lemma {:induction false} AcceptKeeps(s: State, e: Id, fd: Fd)
    requires Inv(s) && Enabled(s, Accept(e, fd))
    ensures Inv(Apply(s, Accept(e, fd)))
  {
    AcceptKeepsWorker(s, e, fd);
    AcceptKeepsEvents(s, e, fd);
    assert fd !in s.table;
    hide WorkerSound, OnePerFd, TableSound, Mirrors;
  }

  lemma {:induction false} SetWorkerKeepsWorker(s: State)
    requires WorkerSound(s) && Enabled(s, SetWorker)
    ensures WorkerSound(Apply(s, SetWorker))
  {
  }

  lemma {:induction false} SetWorkerKeeps(s: State)
    requires Inv(s) && Enabled(s, SetWorker)
    ensures Inv(Apply(s, SetWorker))
  {
    SetWorkerKeepsWorker(s);
    hide WorkerSound;
  }

  lemma {:induction false} CheckRoomKeepsWorker(s: State)
    requires WorkerSound(s) && TableSound(s) && AdderSound(s) && Enabled(s, CheckRoom)
    ensures WorkerSound(Apply(s, CheckRoom))
  {
  }

  lemma {:induction false} CheckRoomKeeps(s: State)
    requires Inv(s) && Enabled(s, CheckRoom)
    ensures Inv(Apply(s, CheckRoom))
  {
    hide WorkerSound;
    CheckRoomKeepsWorker(s);
  }

  lemma {:induction false} CtlAddKeeps(s: State, ok: bool)
    requires Inv(s) && Enabled(s, CtlAdd(ok))
    ensures Inv(Apply(s, CtlAdd(ok)))
  {
  }

  lemma {:induction false} InsertKeepsWorker(s: State)
    requires WorkerSound(s) && OnePerFd(s) && AdderSound(s) && Enabled(s, Insert)
    ensures WorkerSound(Apply(s, Insert))
  {
  }

  lemma {:induction false} InsertKeepsMirror(s: State)
    requires Mirrors(s) && RoomLeft(s) && WorkerSound(s) && Enabled(s, Insert)
    ensures Mirrors(Apply(s, Insert)) && RoomLeft(Apply(s, Insert))
  {
    assert !s.worker.Deleting?;
    hide WorkerSound;
    assert Apply(s, Insert).table.Keys == s.table.Keys + {s.events[s.adder.e].fd};
  }

  lemma {:induction false} InsertKeepsTable(s: State)
    requires OnePerFd(s) && TableSound(s) && AdderSound(s) && Enabled(s, Insert)
    ensures OnePerFd(Apply(s, Insert)) && TableSound(Apply(s, Insert)) && AdderSound(Apply(s, Insert))
  {
  }

  lemma {:induction false} InsertKeeps(s: State)
    requires Inv(s) && Enabled(s, Insert)
    ensures Inv(Apply(s, Insert))
  {
    hide Apply, Enabled, OnePerFd, TableSound, AdderSound, Mirrors, RoomLeft, WorkerSound;
    InsertKeepsWorker(s);
    InsertKeepsMirror(s);
    InsertKeepsTable(s);
  }

  lemma {:induction false} WaitKeeps(s: State, ready: seq<Fd>)
    requires Inv(s) && Enabled(s, Wait(ready))
    ensures Inv(Apply(s, Wait(ready)))
  {
  }

  lemma {:induction false} LookupKeeps(s: State)
    requires Inv(s) && Enabled(s, Lookup)
    ensures Inv(Apply(s, Lookup))
  {
    LookupIsComplete(s);
    hide Listed, Found;
  }

  lemma {:induction false} CtlDelKeeps(s: State)
    requires Inv(s) && Enabled(s, CtlDel)
    ensures Inv(Apply(s, CtlDel))
  {
  }

  lemma {:induction false} EraseKeepsWorker(s: State)
    requires OnePerFd(s) && AdderSound(s) && WorkerSound(s) && Enabled(s, Erase)
    ensures WorkerSound(Apply(s, Erase))
  {
    var s', todo, e := Apply(s, Erase), s.worker.todo, s.worker.todo[0];
    var rest := todo[1..];
    forall i | 0 <= i < |rest|
      ensures rest[i] in s'.events && s'.events[rest[i]].fd in s'.table && s'.table[s'.events[rest[i]].fd] == rest[i]
    {
      assert rest[i] == todo[i + 1] && todo[0] != todo[i + 1];
    }
    assert forall i :: 0 <= i < |rest| ==> rest[i] == todo[i + 1];
    assert Listed(s', rest);
    assert Done(s', s.worker.over + [e]);
  }

  lemma {:induction false} EraseKeepsEvents(s: State)
    requires OnePerFd(s) && Enabled(s, Erase)
    ensures OnePerFd(Apply(s, Erase))
  {
    assert Apply(s, Erase).events == s.events;
    hide Apply;
  }

  lemma {:induction false} EraseKeepsTable(s: State)
    requires TableSound(s) && AdderSound(s) && Enabled(s, Erase)
    ensures TableSound(Apply(s, Erase)) && AdderSound(Apply(s, Erase))
  {
    var s' := Apply(s, Erase);
    assert s'.events == s.events && s'.adder == s.adder && s'.table == s.table - {s.events[s.worker.todo[0]].fd};
    hide Apply;
  }

  lemma {:induction false} EraseKeepsRoom(s: State)
    requires RoomLeft(s) && Enabled(s, Erase)
    ensures RoomLeft(Apply(s, Erase))
  {
    var s', fd := Apply(s, Erase), s.events[s.worker.todo[0]].fd;
    assert s'.table.Keys == s.table.Keys - {fd};
    assert |s'.table.Keys| <= |s.table.Keys|;
  }

  lemma {:induction false} EraseKeepsMirror(s: State)
    requires Mirrors(s) && WorkerSound(s) && Enabled(s, Erase)
    ensures Mirrors(Apply(s, Erase))
  {
    assert !s.adder.Adding?;
    hide WorkerSound;
    assert Apply(s, Erase).table.Keys == s.table.Keys - {s.events[s.worker.todo[0]].fd};
  }

  lemma {:induction false} EraseKeeps(s: State)
    requires Inv(s) && Enabled(s, Erase)
    ensures Inv(Apply(s, Erase))
  {
    hide Apply, Enabled, OnePerFd, TableSound, AdderSound, Mirrors, RoomLeft, WorkerSound;
    EraseKeepsWorker(s);
    EraseKeepsRoom(s);
    EraseKeepsMirror(s);
    EraseKeepsEvents(s);
    EraseKeepsTable(s);
  }

  lemma {:induction false} ReleaseKeeps(s: State)
    requires Inv(s) && Enabled(s, Release)
    ensures Inv(Apply(s, Release))
  {
  }

  lemma {:induction false} StepKeepsInv(s: State, step: Step)
    requires Inv(s) && Enabled(s, step)
    ensures Inv(Apply(s, step))
  {
    match step
    case Accept(e, fd) => AcceptKeeps(s, e, fd);
    case SetWorker => SetWorkerKeeps(s);
    case CheckRoom => CheckRoomKeeps(s);
    case CtlAdd(ok) => CtlAddKeeps(s, ok);
    case Insert => InsertKeeps(s);
    case Wait(ready) => WaitKeeps(s, ready);
    case Lookup => LookupKeeps(s);
    case CtlDel => CtlDelKeeps(s);
    case Erase => EraseKeeps(s);
    case Release => ReleaseKeeps(s);
  }

  lemma {:induction false} RunKeepsInv(s: State, steps: seq<Step>)
    requires Inv(s) && CanRun(s, steps)
    ensures Inv(Exec(s, steps))
    decreases |steps|
  {
    if steps != [] {
      StepKeepsInv(s, steps[0]);
      hide Inv, Apply, Enabled;
      RunKeepsInv(Apply(s, steps[0]), steps[1..]);
    }
  }

  // ----- no descriptor is leaked

  /** Every live event is in the table, in the adding thread's hands, or handled and about to be released. */
  ghost predicate NoLeak(s: State) {
    forall e :: e in s.events ==>
      || (s.events[e].fd in s.table && s.table[s.events[e].fd] == e)
      || (s.adder != Idle && s.adder.e == e)
      || ((s.worker.Batch? || s.worker.Deleting?) && e in s.worker.over)
  }

  lemma {:induction false} AdderKeepsNoLeak(s: State, step: Step)
    requires NoLeak(s) && OnePerFd(s) && Enabled(s, step)
    requires step.Accept? || step.SetWorker? || step.CheckRoom? || step.CtlAdd? || step.Insert?
    ensures NoLeak(Apply(s, step))
  {
  }

  lemma {:induction false} WorkerKeepsNoLeak(s: State, step: Step)
    requires NoLeak(s) && OnePerFd(s) && WorkerSound(s) && Enabled(s, step)
    requires step.Wait? || step.Lookup? || step.CtlDel? || step.Erase? || step.Release?
    ensures NoLeak(Apply(s, step))
  {
  }

  lemma {:induction false} RunKeepsNoLeak(s: State, steps: seq<Step>)
    requires Inv(s) && NoLeak(s) && CanRun(s, steps)
    ensures NoLeak(Exec(s, steps))
    decreases |steps|
  {
    if steps != [] {
      StepKeepsInv(s, steps[0]);
      hide Apply, Enabled, NoLeak, OnePerFd, WorkerSound;
      if steps[0].Accept? || steps[0].SetWorker? || steps[0].CheckRoom? || steps[0].CtlAdd? || steps[0].Insert? {
        AdderKeepsNoLeak(s, steps[0]);
      } else {
        WorkerKeepsNoLeak(s, steps[0]);
      }
      RunKeepsNoLeak(Apply(s, steps[0]), steps[1..]);
    }
  }

  /** In every run, when both threads are idle the live events, and so the open descriptors, are exactly
      those in the table, one each. */
  lemma {:induction false} NothingLeaks(s: State, steps: seq<Step>)
    requires Initial(s) && CanRun(s, steps)
    ensures var t := Exec(s, steps);
            t.adder == Idle && (t.worker == Polling || t.worker.Woken?) ==>
              && (forall e :: e in t.events ==> t.events[e].fd in t.table && t.table[t.events[e].fd] == e)
              && (forall fd :: fd in t.table ==> t.table[fd] in t.events && t.events[t.table[fd]] == Event(fd, true))
  {
    RunKeepsInv(s, steps);
    RunKeepsNoLeak(s, steps);
  }

  // ----- the life of a connection

  lemma {:induction false} AddRuns(s: State, e: Id, fd: Fd)
    requires s.adder == Idle && s.worker == Polling && |s.table| < s.maxFDS
    requires Enabled(s, Accept(e, fd)) && fd !in s.kernel
    ensures var steps := [Accept(e, fd), SetWorker, CheckRoom, CtlAdd(true), Insert];
            && CanRun(s, steps)
            && Exec(s, steps) ==
               s.(kernel := s.kernel + {fd}, table := s.table[fd := e], events := s.events[e := Event(fd, true)])
  {
    var s1 := Apply(s, Accept(e, fd));
    var s2 := Apply(s1, SetWorker);
    var s3 := Apply(s2, CheckRoom);
    var s4 := Apply(s3, CtlAdd(true));
    var s5 := Apply(s4, Insert);
    assert s2.events == s.events[e := Event(fd, true)];
    assert s5 == s.(kernel := s.kernel + {fd}, table := s.table[fd := e], events := s.events[e := Event(fd, true)]);
    hide Apply, Enabled;
    OneStepMore(s4, Insert, []);
    OneStepMore(s3, CtlAdd(true), [Insert]);
    OneStepMore(s2, CheckRoom, [CtlAdd(true), Insert]);
    OneStepMore(s1, SetWorker, [CheckRoom, CtlAdd(true), Insert]);
    OneStepMore(s, Accept(e, fd), [SetWorker, CheckRoom, CtlAdd(true), Insert]);
  }

  lemma {:induction false} HandleRuns(s: State, fd: Fd)
    requires s.adder == Idle && s.worker == Polling && fd in s.kernel && fd in s.table
    requires s.table[fd] in s.events && s.events[s.table[fd]].fd == fd
    ensures var e, steps := s.table[fd], [Wait([fd]), Lookup, CtlDel, Erase, Release];
            && CanRun(s, steps)
            && Exec(s, steps) == s.(kernel := s.kernel - {fd}, table := s.table - {fd}, events := s.events - {e})
  {
    var e := s.table[fd];
    var s1 := Apply(s, Wait([fd]));
    assert Found([fd], s.table) == [e] + Found([fd][1..], s.table) == [e];
    var s2 := Apply(s1, Lookup);
    assert s2.worker == Batch([e], []);
    var s3 := Apply(s2, CtlDel);
    var s4 := Apply(s3, Erase);
    assert s4.worker == Batch([], [e]);
    var s5 := Apply(s4, Release);
    assert s5.events == s.events - {e};
    assert s5 == s.(kernel := s.kernel - {fd}, table := s.table - {fd}, events := s.events - {e});
    hide Apply, Enabled;
    OneStepMore(s4, Release, []);
    OneStepMore(s3, Erase, [Release]);
    OneStepMore(s2, CtlDel, [Erase, Release]);
    OneStepMore(s1, Lookup, [CtlDel, Erase, Release]);
    OneStepMore(s, Wait([fd]), [Lookup, CtlDel, Erase, Release]);
  }

  lemma {:induction false} RunOn(s: State, a: seq<Step>, b: seq<Step>)
    requires CanRun(s, a) && CanRun(Exec(s, a), b)
    ensures CanRun(s, a + b) && Exec(s, a + b) == Exec(Exec(s, a), b)
    decreases |a|
  {
    if a == [] {
      assert a + b == b;
    } else {
      assert (a + b)[1..] == a[1..] + b;
      hide Apply, Enabled;
      RunOn(Apply(s, a[0]), a[1..], b);
    }
  }

  /** The life of a connection, while there is room: accepted, added, reported, handled, deleted and
      released. It can always be lived through, and leaves everything as it was. */
  lemma {:induction false} LifeRuns(s: State, e: Id, fd: Fd)
    requires Inv(s) && s.adder == Idle && s.worker == Polling && |s.table| < s.maxFDS && Enabled(s, Accept(e, fd))
    ensures var steps := [Accept(e, fd), SetWorker, CheckRoom, CtlAdd(true), Insert] +
                         [Wait([fd]), Lookup, CtlDel, Erase, Release];
            CanRun(s, steps) && Exec(s, steps) == s
  {
    hide Inv, Apply, Enabled, CanRun, Exec;
    NewDescriptor(s, e, fd);
    AddRuns(s, e, fd);
    var added := s.(kernel := s.kernel + {fd}, table := s.table[fd := e], events := s.events[e := Event(fd, true)]);
    HandleRuns(added, fd);
    assert added.kernel - {fd} == s.kernel && added.table - {fd} == s.table && added.events - {e} == s.events;
    RunOn(s, [Accept(e, fd), SetWorker, CheckRoom, CtlAdd(true), Insert], [Wait([fd]), Lookup, CtlDel, Erase, Release]);
  }

  lemma {:induction false} NewDescriptor(s: State, e: Id, fd: Fd)
    requires Inv(s) && s.adder == Idle && s.worker == Polling && Enabled(s, Accept(e, fd))
    ensures fd !in s.table && fd !in s.kernel && e !in s.events
  {
  }

  /** Without room, or when epoll_ctl fails, a new connection is dropped and leaves everything as it was. */
  lemma {:induction false} RefusalRuns(s: State, e: Id, fd: Fd)
    requires s.adder == Idle && s.worker == Polling && Enabled(s, Accept(e, fd))
    ensures var steps := [Accept(e, fd), SetWorker, CheckRoom] + if |s.table| < s.maxFDS then [CtlAdd(false)] else [];
            CanRun(s, steps) && Exec(s, steps) == s
  {
    var s1 := Apply(s, Accept(e, fd));
    var s2 := Apply(s1, SetWorker);
    var s3 := Apply(s2, CheckRoom);
    assert s2.events - {e} == s.events;
    var last := if |s.table| < s.maxFDS then [CtlAdd(false)] else [];
    if |s.table| < s.maxFDS {
      OneStepMore(s3, CtlAdd(false), []);
    }
    hide Apply, Enabled;
    OneStepMore(s2, CheckRoom, last);
    OneStepMore(s1, SetWorker, [CheckRoom] + last);
    OneStepMore(s, Accept(e, fd), [SetWorker] + ([CheckRoom] + last));
    assert [Accept(e, fd)] + ([SetWorker] + ([CheckRoom] + last)) == [Accept(e, fd), SetWorker, CheckRoom] + last;
  }

  /** Neither thread waits for the other but for the lock, and who holds the lock can go on: there is no
      deadlock. And the kernel may report any registered descriptors, each once, in any order. */
  lemma {:induction false} NoDeadlock(s: State)
    requires Inv(s)
    ensures s.worker.Deleting? ==> Enabled(s, Erase)
    ensures s.adder.Adding? ==> Enabled(s, Insert)
    ensures s.adder.Made? ==> Enabled(s, SetWorker)
    ensures s.adder.Named? && !s.worker.Deleting? ==> Enabled(s, CheckRoom)
    ensures s.adder.Checked? && !s.worker.Deleting? ==> Enabled(s, CtlAdd(true)) && Enabled(s, CtlAdd(false))
    ensures s.worker.Woken? && !s.adder.Adding? ==> Enabled(s, Lookup)
    ensures s.worker.Batch? && !s.adder.Adding? ==> Enabled(s, if s.worker.todo == [] then Release else CtlDel)
    ensures forall ready: seq<Fd> :: Enabled(s, Wait(ready)) <==>
              s.worker == Polling && Distinct(ready) && forall fd :: fd in ready ==> fd in s.kernel
  {
  }

  // ----- what holds in every run

  /** In every state of every run: outside the lock the table and the kernel's interest set name the
      same descriptors; there is at most one live event per descriptor; the table holds at most
      maxFDS of them; and every event waiting to be handled is live and names its worker, so the
      handler's assertions hold, and its delete finds the descriptor in the kernel. */
  lemma {:induction false} TableMirrorsKernel(s: State, steps: seq<Step>)
    requires Initial(s) && CanRun(s, steps)
    ensures
      var t := Exec(s, steps);
      && (LockFree(t) ==> t.table.Keys == t.kernel)
      && OnePerFd(t) && |t.table| <= t.maxFDS
      && (t.worker.Batch? ==> forall i :: 0 <= i < |t.worker.todo| ==>
           var e := t.worker.todo[i];
           e in t.events && t.events[e].named && (LockFree(t) ==> t.events[e].fd in t.kernel))
  {
    RunKeepsInv(s, steps);
  }

  /** And a look-up after any run skips nothing the kernel reported. */
  lemma {:induction false} NothingReportedIsSkipped(s: State, steps: seq<Step>)
    requires Initial(s) && CanRun(s, steps) && Enabled(Exec(s, steps), Lookup)
    ensures var t := Exec(s, steps);
            |Apply(t, Lookup).worker.todo| == |t.worker.ready|
  {
    RunKeepsInv(s, steps);
    LookupIsComplete(Exec(s, steps));
  }
}
