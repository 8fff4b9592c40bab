/** The logger object as the program updates it: its three vectors pushed, swapped and cleared, each
    critical section proved to be the protocol's step on the queues. */
module LoggerObject {
  import opened Wrappers
  import opened AsyncLogger
  import opened LogBuffer

  datatype Error = SERVER_OK | LOGFILE_OPEN_FAILED | LOGFILE_WRITE_FAILE

  class Logger {
    var current: seq<string>
    var alternate: seq<string>
    var loggerLocal: seq<string>
    var overflow: nat
    var running: bool
    var fileOpen: bool
    var file: string

    function Q(): Queues
      reads this
    {
      Queues(current, alternate, loggerLocal)
    }

    constructor ()
      ensures Q() == Queues([], [], []) && overflow == 2 && running && !fileOpen && file == ""
    {
      current, alternate, loggerLocal, overflow, running, fileOpen, file := [], [], [], 2, true, false, "";
    }

    method SetOverflowSize(size: nat) returns (ok: bool)
      modifies this`overflow
      ensures ok == (size != 0) && overflow == if ok then size else old(overflow)
    {
      ok := size != 0;
      if ok {
        overflow := size;
      }
    }

    /** append: a stopped logger refuses and changes nothing; a running one takes the record, and
        wakes the logger thread whenever something waits in alternate. */
    method AppendRecord(record: string) returns (ok: bool, notified: bool)
      modifies this`current, this`alternate
      ensures ok == running
      ensures Q() == if ok then AppendTo(old(Q()), overflow, record) else old(Q())
      ensures ok ==> notified == (alternate != [])
    {
      if !running {
        return false, false;
      }
      if !Available(current, overflow, record) {
        var i := 0;
        while i < |current|
          invariant i <= |current| && current == old(current)
          invariant alternate == old(alternate) + current[..i]
        {
          alternate := alternate + [current[i]];
          i := i + 1;
        }
        assert current[..i] == current;
        current := [];
      }
      notified := alternate != [];
      if current == [] || !Fits(Last(current), record) {
        current := current + [record];
      } else {
        current := current[..|current| - 1] + [Last(current) + record];
      }
      ok := true;
    }

    /** flush2LogFile: every buffer in order, as long as the file is open. A write that fails closes the
        file, for the log is then reopened under an empty name. left: the faults not yet met. */
    method Flush2LogFile(buffs: seq<string>, faults: seq<Option<nat>>) returns (error: Error, left: seq<Option<nat>>)
      modifies this`file, this`fileOpen
      ensures file == old(file) + File(Chunks(buffs, old(fileOpen), faults))
      ensures fileOpen == (old(fileOpen) && NoFault(|buffs|, faults)) && left == faults[Min(|buffs|, |faults|)..]
      ensures error == if !old(fileOpen) then LOGFILE_OPEN_FAILED
                       else if NoFault(|buffs|, faults) then SERVER_OK else LOGFILE_WRITE_FAILE
    {
      hide File, Chunks;
      if !fileOpen {
        ClosedFile(buffs, faults);
        assert file + "" == file;
        return LOGFILE_OPEN_FAILED, faults[Min(|buffs|, |faults|)..];
      }
      error := SERVER_OK;
      var i := 0;
      NothingFiled(faults);
      assert file + "" == file && buffs[..0] == [];
      while i < |buffs|
        invariant i <= |buffs| && file == old(file) + File(Chunks(buffs[..i], true, faults))
        invariant fileOpen == NoFault(i, faults)
        invariant error == if NoFault(i, faults) then SERVER_OK else LOGFILE_WRITE_FAILE
      {
        var fault := if i < |faults| then faults[i] else None;
        var chunk := Write(buffs[i], fileOpen, fault);
        OneMoreFiled(buffs, i, faults, chunk);
        Associate(old(file), File(Chunks(buffs[..i], true, faults)), chunk.Filed());
        file := file + chunk.Filed();
        if fault.Some? || !fileOpen {
          error, fileOpen := LOGFILE_WRITE_FAILE, false;
        }
        i := i + 1;
      }
      assert buffs[..i] == buffs;
      left := faults[Min(|buffs|, |faults|)..];
    }

    /** One turn of the logger thread after its wait: take under the buffer lock, write, clear. No
        byte is lost or reordered by it when the file is open and no write fails. */
    method Turn(timeout: bool, faults: seq<Option<nat>>)
      requires loggerLocal == []
      modifies this
      ensures loggerLocal == [] && running == old(running) && overflow == old(overflow)
      ensures var taken := Take(old(Q()), timeout);
              && Q() == taken.(local := [])
              && fileOpen == (old(fileOpen) && NoFault(|taken.local|, faults))
              && file == old(file) + File(Chunks(taken.local, old(fileOpen), faults))
      ensures fileOpen ==> file + Queued(Q()) == old(file + Queued(Q()))
    {
      if alternate != [] {
        loggerLocal, alternate := alternate, loggerLocal;
      }
      if timeout {
        loggerLocal := loggerLocal + current;
        current := [];
      }
      TakeKeepsBytes(old(Q()), timeout);
      hide File, Chunks, Concat;
      var _, _ := Flush2LogFile(loggerLocal, faults);
      if fileOpen {
        FaultlessFile(loggerLocal, faults);
        TakeSplit(old(file), Q());
      }
      loggerLocal := [];
    }

    /** The destructor: local, alternate, current, in that order: what the protocol's last step drains. */
    method Destruct(faults: seq<Option<nat>>)
      modifies this
      ensures !running && !fileOpen && Q() == Queues([], [], [])
      ensures var all := old(loggerLocal + alternate + current);
              && file == old(file) + File(Chunks(all, old(fileOpen), faults))
              && (old(fileOpen) && NoFault(|all|, faults) ==> file == old(file) + Queued(old(Q())))
    {
      hide File, Chunks, NoFault, Queued;
      running := false;
      ThreeFlushes(file, Q(), fileOpen, faults);
      var error, left := Flush2LogFile(loggerLocal, faults);
      error, left := Flush2LogFile(alternate, left);
      error, left := Flush2LogFile(current, left);
      current, alternate, loggerLocal, fileOpen := [], [], [], false;
    }
  }

  lemma {:induction false} ThreeFlushes(file: string, q: Queues, isOpen: bool, faults: seq<Option<nat>>)
    ensures
      var all := q.local + q.alternate + q.current;
      var left := faults[Min(|q.local|, |faults|)..];
      var last := left[Min(|q.alternate|, |left|)..];
      var stays := isOpen && NoFault(|q.local|, faults);
      && file + File(Chunks(q.local, isOpen, faults)) + File(Chunks(q.alternate, stays, left)) +
           File(Chunks(q.current, stays && NoFault(|q.alternate|, left), last)) ==
         file + File(Chunks(all, isOpen, faults))
      && (isOpen && NoFault(|all|, faults) ==> File(Chunks(all, isOpen, faults)) == Queued(q))
  {
    var two := q.local + q.alternate;
    hide File, Chunks, Concat;
    FlushTwice(file, q.local, q.alternate, isOpen, faults);
    LeftAfter(q.local, q.alternate, faults);
    FlushTwice(file, two, q.current, isOpen, faults);
    if isOpen && NoFault(|two + q.current|, faults) {
      FaultlessFile(two + q.current, faults);
      ConcatAppend(two, q.current);
      ConcatAppend(q.local, q.alternate);
      Associate(Concat(q.local), Concat(q.alternate), Concat(q.current));
    }
  }

  /** append2Current on the last buffer object: the record goes in whole if it fits, and otherwise becomes
      a buffer of its own; either way the queue is the protocol's. */
  method MergeIntoLast(last: Buffer, record: string) returns (merged: bool)
    requires last.Valid() && last.data.Length == CAPACITY
    modifies last, last.data
    ensures last.Valid() && merged == Fits(old(last.Contents()), record)
    ensures forall front: seq<string> ::
              Put(front + [old(last.Contents())], record) ==
              front + if merged then [last.Contents()] else [last.Contents(), record]
  {
    ghost var before := last.Contents();
    merged := |record| <= last.Rest();
    if merged {
      last.Merge(record);
    }
    forall front: seq<string>
      ensures Put(front + [before], record) == front + if merged then [last.Contents()] else [last.Contents(), record]
    {
      assert (front + [before])[..|front|] == front;
    }
  }

  /** The end of a log stream: the record it hands over is one the protocol's producers may append. */
  method CloseRecord(stream: LogStream, ghost s: State, ghost p: Tid) returns (record: string)
    requires stream.Valid()
    modifies stream.buffer
    ensures record == stream.written[..Min(|stream.written|, CAPACITY)]
    ensures s.running && s.dtor != Gone && p !in s.ready ==> Enabled(s, Check(p, record))
  {
    record := stream.Close();
  }

  lemma NothingFiled(faults: seq<Option<nat>>)
    ensures File(Chunks([], true, faults)) == ""
  {
  }

  lemma {:induction false} OneMoreFiled(buffs: seq<string>, i: nat, faults: seq<Option<nat>>, chunk: Chunk)
    requires i < |buffs|
    requires chunk == Write(buffs[i], NoFault(i, faults), if i < |faults| then faults[i] else None)
    ensures File(Chunks(buffs[..i + 1], true, faults)) == File(Chunks(buffs[..i], true, faults)) + chunk.Filed()
  {
    var rest := faults[Min(i, |faults|)..];
    assert buffs[..i + 1] == buffs[..i] + [buffs[i]];
    ChunksAppend(buffs[..i], [buffs[i]], true, faults);
    assert Chunks([buffs[i]], NoFault(i, faults), rest) == [chunk];
    FileAppend(Chunks(buffs[..i], true, faults), [chunk]);
    assert File([chunk]) == chunk.Filed() + "" == chunk.Filed();
  }

  lemma {:induction false} FlushTwice(file: string, a: seq<string>, b: seq<string>, isOpen: bool,
                                      faults: seq<Option<nat>>)
    ensures file + File(Chunks(a, isOpen, faults)) +
              File(Chunks(b, isOpen && NoFault(|a|, faults), faults[Min(|a|, |faults|)..])) ==
            file + File(Chunks(a + b, isOpen, faults))
  {
    hide File, Chunks;
    ChunksAppend(a, b, isOpen, faults);
    var one, two := Chunks(a, isOpen, faults), Chunks(b, isOpen && NoFault(|a|, faults), faults[Min(|a|, |faults|)..]);
    FileAppend(one, two);
    Associate(file, File(one), File(two));
  }

  lemma {:induction false} LeftAfter(a: seq<string>, b: seq<string>, faults: seq<Option<nat>>)
    ensures var left := faults[Min(|a|, |faults|)..];
            && left[Min(|b|, |left|)..] == faults[Min(|a + b|, |faults|)..]
            && (NoFault(|a|, faults) && NoFault(|b|, left) <==> NoFault(|a + b|, faults))
  {
    var n := Min(|a|, |faults|);
    var left := faults[n..];
    assert forall i :: 0 <= i < |left| ==> left[i] == faults[n + i];
    assert forall i :: n <= i < |faults| ==> faults[i] == left[i - n];
  }

  lemma {:induction false} TakeSplit(file: string, q: Queues)
    ensures (file + Concat(q.local)) + Queued(q.(local := [])) == file + Queued(q)
  {
    var rest := Concat(q.alternate) + Concat(q.current);
    assert "" + rest == rest;
    Associate(file, Concat(q.local), rest);
  }
}
