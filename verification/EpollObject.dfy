/** Epoll and Worker as the program updates them: the event map changed under the lock together with
    the kernel set, and the vector that a wait fills; each method is proved to be the protocol's
    steps. */
module EpollObject {
  import opened Wrappers
  import T = EventTable

  datatype Error =
    | SERVER_OK | INVALID_EPOLL_FD | MAX_EVENT_NUM | EPOLL_EVENT_ADD_FAILED | EPOLL_EVENT_DEL_FAILED | EPOLL_WAIT_FAILED

  class Event {
    const fd: T.Fd
    const id: T.Id    // which Event object this is
    var named: bool   // the worker pointer is set
    var response: nat // the response event of the last wait

    constructor (fd: T.Fd, id: T.Id)
      ensures this.fd == fd && this.id == id && !named && response == 0
    {
      this.fd, this.id, named, response := fd, id, false, 0;
    }
  }

  /** One entry of the array epoll_wait fills. */
  datatype Accepted = Accepted(fd: T.Fd, response: nat)

  function Fds(accepted: seq<Accepted>): seq<T.Fd> {
    seq(|accepted|, i requires 0 <= i < |accepted| => accepted[i].fd)
  }

  function Ids(events: seq<Event>): seq<T.Id> { seq(|events|, i requires 0 <= i < |events| => events[i].id) }

  /** The protocol's steps behind a call, by what it returns. */
  function AddSteps(error: Error): seq<T.Step> {
    match error
    case SERVER_OK => [T.SetWorker, T.CheckRoom, T.CtlAdd(true), T.Insert]
    case MAX_EVENT_NUM => [T.SetWorker, T.CheckRoom]
    case _ => [T.SetWorker, T.CheckRoom, T.CtlAdd(false)]
  }

  function DelSteps(error: Error): seq<T.Step> {
    if error == SERVER_OK then [T.CtlDel, T.Erase] else [T.CtlDel]
  }

  function TableOf(events: map<T.Fd, Event>): map<T.Fd, T.Id> { map fd | fd in events :: events[fd].id }

  lemma {:induction false} TableChanges(events: map<T.Fd, Event>, event: Event)
    ensures TableOf(events[event.fd := event]) == TableOf(events)[event.fd := event.id]
    ensures TableOf(events - {event.fd}) == TableOf(events) - {event.fd}
    ensures |TableOf(events)| == |events|
  {
    assert TableOf(events).Keys == events.Keys;
    assert |TableOf(events).Keys| == |events.Keys|;
  }

  /** Kernel set and table of an object are those of a protocol state whose table is sound: every entry a
      live event for its descriptor that names its worker. */
  ghost predicate StandsFor(kernel: set<T.Fd>, table: map<T.Fd, T.Id>, maxFDS: nat, s: T.State) {
    s.kernel == kernel && s.table == table && s.maxFDS == maxFDS && T.TableSound(s)
  }

  class Epoll {
    var kernel: set<T.Fd>
    var events: map<T.Fd, Event>
    const maxFDS: nat
    const epfd: int

    predicate ValidEpollFD() { epfd >= 3 }

    ghost predicate Valid()
      reads this
    {
      && kernel == events.Keys && |events| <= maxFDS && (forall fd :: fd in events ==> events[fd].fd == fd)
      && (!ValidEpollFD() ==> events == map[])
    }

    ghost function Table(): map<T.Fd, T.Id>
      reads this
    {
      TableOf(events)
    }

    /** The object stands for this protocol state. */
    ghost predicate Stands(s: T.State)
      reads this
    {
      StandsFor(kernel, Table(), maxFDS, s)
    }

    constructor (maxFDS: nat, epfd: int)
      ensures Valid() && events == map[] && this.maxFDS == maxFDS && this.epfd == epfd
    {
      this.maxFDS, this.epfd, kernel, events := maxFDS, epfd, {}, map[];
    }

    /** epollAddEvent; ctlOk: epoll_ctl has room for it. Adding a descriptor already there fails in the
        kernel and leaves both as they were. */
    method AddEvent(event: Event, ctlOk: bool) returns (error: Error)
      requires Valid()
      modifies this
      ensures Valid()
      ensures error == if |old(events)| >= maxFDS then MAX_EVENT_NUM
                       else if !ValidEpollFD() then INVALID_EPOLL_FD
                       else if !ctlOk || event.fd in old(kernel) then EPOLL_EVENT_ADD_FAILED else SERVER_OK
      ensures events == if error == SERVER_OK then old(events)[event.fd := event] else old(events)
      ensures kernel == if error == SERVER_OK then old(kernel) + {event.fd} else old(kernel)
    {
      if |events| >= maxFDS {
        return MAX_EVENT_NUM;
      }
      if !ValidEpollFD() {
        return INVALID_EPOLL_FD;
      }
      if !ctlOk || event.fd in kernel {
        return EPOLL_EVENT_ADD_FAILED;
      }
      kernel := kernel + {event.fd};
      events := events[event.fd := event];
      error := SERVER_OK;
    }

    /** epollDelEvent: the descriptor is in neither afterwards, and if the event is the one the worker's
        thread is handling in protocol state s, the object stands for that state after the delete. */
    method DelEvent(event: Event, ghost s: T.State) returns (error: Error)
      requires Valid()
      modifies this
      ensures Valid() && event.fd !in kernel
      ensures error == if !ValidEpollFD() then INVALID_EPOLL_FD
                       else if event.fd in old(kernel) then SERVER_OK else EPOLL_EVENT_DEL_FAILED
      ensures events == old(events) - {event.fd}
      ensures old(Stands(s)) && Deletes(event, s) ==>
                T.CanRun(s, DelSteps(error)) && Stands(T.Exec(s, DelSteps(error)))
    {
      hide T.CanRun, T.Exec, Deletes, StandsFor, TableOf, DelSteps;
      TableChanges(events, event);
      DelRefines(event, kernel, Table(), maxFDS, s);
      if !ValidEpollFD() {
        assert events - {event.fd} == events;
        return INVALID_EPOLL_FD;
      }
      if event.fd !in kernel {
        assert events - {event.fd} == events;
        return EPOLL_EVENT_DEL_FAILED;
      }
      kernel := kernel - {event.fd};
      events := events - {event.fd};
      error := SERVER_OK;
    }

    /** The loop of epollWait: one event per reported descriptor that is in the table, in order, each
        carrying the response the kernel reported for it. */
    method Collect(accepted: seq<Accepted>) returns (ret: seq<Event>)
      requires Valid() && Distinct(Fds(accepted))
      modifies events.Values
      ensures Ids(ret) == T.Found(Fds(accepted), Table())
      ensures forall e :: e in ret ==> e.fd in events && events[e.fd] == e
      ensures forall i :: 0 <= i < |accepted| && accepted[i].fd in events ==>
                events[accepted[i].fd].response == accepted[i].response
      ensures forall e :: e in events.Values ==> e.named == old(e.named)
    {
      ret := [];
      var i := 0;
      assert forall j :: 0 <= j < |accepted| ==> Fds(accepted)[j] == accepted[j].fd;
      ghost var table := Table();
      while i < |accepted|
        invariant i <= |accepted| && Ids(ret) == T.Found(Fds(accepted[..i]), table)
        invariant forall e :: e in ret ==> e.fd in events && events[e.fd] == e
        invariant forall k :: 0 <= k < i && accepted[k].fd in events ==>
                    events[accepted[k].fd].response == accepted[k].response
        invariant forall e :: e in events.Values ==> e.named == old(e.named)
      {
        var fd := accepted[i].fd;
        assert Fds(accepted[..i + 1]) == Fds(accepted[..i]) + [fd];
        T.FoundAppend(Fds(accepted[..i]), fd, table);
        if fd in events {
          var cur := events[fd];
          cur.response := accepted[i].response;
          assert Ids(ret + [cur]) == Ids(ret) + [cur.id];
          ret := ret + [cur];
        }
        i := i + 1;
      }
      assert accepted[..i] == accepted;
    }

    /** epollWait; woken: what the kernel reported, or None for a failed wait. When the worker's thread
        is back from its wait in protocol state s, it is handed that state's batch. */
    method EpollWait(woken: Option<seq<Accepted>>, ghost s: T.State) returns (error: Error, ret: seq<Event>)
      requires Valid() && (woken.Some? ==> Distinct(Fds(woken.value)))
      modifies events.Values
      ensures error == if !ValidEpollFD() then INVALID_EPOLL_FD
                       else if woken.None? then EPOLL_WAIT_FAILED else SERVER_OK
      ensures error != SERVER_OK ==> ret == []
      ensures error == SERVER_OK && old(Stands(s)) && T.LockFree(s) && s.worker == T.Woken(Fds(woken.value)) ==>
                T.Enabled(s, T.Lookup) && Stands(T.Apply(s, T.Lookup)) && Ids(ret) == T.Apply(s, T.Lookup).worker.todo
    {
      if !ValidEpollFD() {
        return INVALID_EPOLL_FD, [];
      }
      if woken.None? {
        return EPOLL_WAIT_FAILED, [];
      }
      ret := Collect(woken.value);
      error := SERVER_OK;
    }
  }

  /** The worker's thread is about to delete this event. */
  ghost predicate Deletes(event: Event, s: T.State) {
    && T.LockFree(s) && s.worker.Batch? && s.worker.todo != [] && s.worker.todo[0] == event.id
    && event.id in s.events && s.events[event.id].fd == event.fd
  }

  lemma {:induction false} DeleteSucceeds(event: Event, kernel: set<T.Fd>, table: map<T.Fd, T.Id>,
                                          maxFDS: nat, s: T.State)
    requires Deletes(event, s) && event.fd in kernel && StandsFor(kernel, table, maxFDS, s)
    ensures T.CanRun(s, [T.CtlDel, T.Erase])
    ensures StandsFor(kernel - {event.fd}, table - {event.fd}, maxFDS, T.Exec(s, [T.CtlDel, T.Erase]))
  {
    T.OneStepMore(T.Apply(s, T.CtlDel), T.Erase, []);
    T.OneStepMore(s, T.CtlDel, [T.Erase]);
  }

  lemma {:induction false} DeleteFails(event: Event, kernel: set<T.Fd>, table: map<T.Fd, T.Id>,
                                          maxFDS: nat, s: T.State)
    requires Deletes(event, s) && event.fd !in kernel && StandsFor(kernel, table, maxFDS, s)
    ensures T.CanRun(s, [T.CtlDel]) && StandsFor(kernel, table, maxFDS, T.Exec(s, [T.CtlDel]))
  {
    T.OneStepMore(s, T.CtlDel, []);
  }

  lemma {:induction false} DelRefines(event: Event, kernel: set<T.Fd>, table: map<T.Fd, T.Id>, maxFDS: nat, s: T.State)
    ensures Deletes(event, s) && StandsFor(kernel, table, maxFDS, s) ==>
      if event.fd in kernel
      then
        && T.CanRun(s, DelSteps(SERVER_OK))
        && StandsFor(kernel - {event.fd}, table - {event.fd}, maxFDS, T.Exec(s, DelSteps(SERVER_OK)))
      else
        forall error | error != SERVER_OK ::
          T.CanRun(s, DelSteps(error)) && StandsFor(kernel, table, maxFDS, T.Exec(s, DelSteps(error)))
  {
    hide T.CanRun, T.Exec, Deletes, StandsFor;
    if Deletes(event, s) && StandsFor(kernel, table, maxFDS, s) {
      if event.fd in kernel {
        DeleteSucceeds(event, kernel, table, maxFDS, s);
      } else {
        DeleteFails(event, kernel, table, maxFDS, s);
      }
    }
  }

  /** The listening thread has made this event and is about to give it to its worker. */
  ghost predicate Adds(event: Event, s: T.State) {
    && T.LockFree(s) && s.adder == T.Made(event.id) && event.id in s.events && s.events[event.id].fd == event.fd
    && event.fd !in s.table
  }

  lemma {:induction false} AddSucceeds(s: T.State)
    requires s.adder.Made? && s.adder.e in s.events && T.LockFree(s)
    requires |s.table| < s.maxFDS && s.events[s.adder.e].fd !in s.kernel
    ensures var fd, e := s.events[s.adder.e].fd, s.adder.e;
            && T.CanRun(s, AddSteps(SERVER_OK))
            && T.Exec(s, AddSteps(SERVER_OK)) ==
               s.(kernel := s.kernel + {fd}, table := s.table[fd := e], events := s.events[e := T.Event(fd, true)],
                  adder := T.Idle)
  {
    var s1 := T.Apply(s, T.SetWorker);
    var s2 := T.Apply(s1, T.CheckRoom);
    var s3 := T.Apply(s2, T.CtlAdd(true));
    T.OneStepMore(s3, T.Insert, []);
    T.OneStepMore(s2, T.CtlAdd(true), [T.Insert]);
    T.OneStepMore(s1, T.CheckRoom, [T.CtlAdd(true), T.Insert]);
    T.OneStepMore(s, T.SetWorker, [T.CheckRoom, T.CtlAdd(true), T.Insert]);
  }

  lemma {:induction false} AddFails(s: T.State, error: Error)
    requires s.adder.Made? && s.adder.e in s.events && T.LockFree(s)
    requires error != SERVER_OK && (error == MAX_EVENT_NUM <==> |s.table| >= s.maxFDS)
    ensures T.CanRun(s, AddSteps(error))
    ensures T.Exec(s, AddSteps(error)) == s.(events := s.events - {s.adder.e}, adder := T.Idle)
  {
    var s1 := T.Apply(s, T.SetWorker);
    var s2 := T.Apply(s1, T.CheckRoom);
    if error == MAX_EVENT_NUM {
      T.OneStepMore(s1, T.CheckRoom, []);
      T.OneStepMore(s, T.SetWorker, [T.CheckRoom]);
    } else {
      T.OneStepMore(s2, T.CtlAdd(false), []);
      T.OneStepMore(s1, T.CheckRoom, [T.CtlAdd(false)]);
      T.OneStepMore(s, T.SetWorker, [T.CheckRoom, T.CtlAdd(false)]);
    }
  }

  lemma {:induction false} AddRefines(event: Event, error: Error, kernel: set<T.Fd>, table: map<T.Fd, T.Id>,
                                          maxFDS: nat, s: T.State)
    requires Adds(event, s) && StandsFor(kernel, table, maxFDS, s)
    requires error == MAX_EVENT_NUM <==> |table| >= maxFDS
    requires error == SERVER_OK ==> event.fd !in kernel
    ensures T.CanRun(s, AddSteps(error))
    ensures var fd, t := event.fd, T.Exec(s, AddSteps(error));
            if error == SERVER_OK
            then StandsFor(kernel + {fd}, table[fd := event.id], maxFDS, t)
            else StandsFor(kernel, table, maxFDS, t)
  {
    hide T.CanRun, T.Exec, AddSteps;
    if error == SERVER_OK {
      AddSucceeds(s);
    } else {
      AddFails(s, error);
    }
  }

  /** Worker::addEvent: the worker is named before the event becomes visible, and unnamed again if it
      was not added, so an event in the table always names its worker; and if the event is the one the
      listening thread has made in protocol state s, the object stands for that state after the add. */
  method AddToWorker(poller: Epoll, event: Event, ctlOk: bool, ghost s: T.State) returns (error: Error)
    requires poller.Valid() && event !in poller.events.Values
    requires forall e :: e in poller.events.Values ==> e.named
    modifies poller, event
    ensures poller.Valid() && (event.named <==> error == SERVER_OK)
    ensures poller.events == if error == SERVER_OK then old(poller.events)[event.fd := event] else old(poller.events)
    ensures forall e :: e in poller.events.Values ==> e.named
    ensures old(poller.Stands(s)) && Adds(event, s) ==>
              T.CanRun(s, AddSteps(error)) && poller.Stands(T.Exec(s, AddSteps(error)))
  {
    hide T.CanRun, T.Exec, Adds, StandsFor, TableOf, AddSteps;
    TableChanges(poller.events, event);
    ghost var kernel, table := poller.kernel, poller.Table();
    event.named := true;
    error := poller.AddEvent(event, ctlOk);
    if error != SERVER_OK {
      event.named := false;
    }
    if StandsFor(kernel, table, poller.maxFDS, s) && Adds(event, s) {
      AddRefines(event, error, kernel, table, poller.maxFDS, s);
    }
  }
}
