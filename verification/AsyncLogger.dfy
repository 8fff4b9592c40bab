/** The double-buffered logger as a protocol: any number of producers, the logger thread, changes of
    settings and the destructor, interleaved at lock granularity. */
module AsyncLogger {
  import opened Wrappers
  import LogBuffer

  // every record and every queued buffer is one Buffer of the default size
  const CAPACITY: nat := LogBuffer.DEFAULT_BFSIZE

  type Tid = nat

  // ----- the three queues and the critical sections on them

  datatype Queues = Queues(current: seq<string>, alternate: seq<string>, local: seq<string>)

  function Last(bs: seq<string>): string
    requires bs != []
  {
    bs[|bs| - 1]
  }

  /** rest() of a buffer is CAPACITY minus its length. */
  predicate Fits(b: string, record: string) { |b| + |record| <= CAPACITY }

  /** currentAvailable4. */
  predicate Available(current: seq<string>, overflow: nat, record: string) {
    |current| < overflow || (current != [] && Fits(Last(current), record))
  }

  /** append2Current: into the last buffer if the record fits, else as a buffer of its own. */
  function Put(current: seq<string>, record: string): seq<string> {
    if current == [] || !Fits(Last(current), record) then current + [record]
    else current[..|current| - 1] + [Last(current) + record]
  }

  /** append, under the buffer lock. */
  function AppendTo(q: Queues, overflow: nat, record: string): Queues {
    if Available(q.current, overflow, record) then q.(current := Put(q.current, record))
    else q.(alternate := q.alternate + q.current, current := Put([], record))
  }

  /** What the logger thread does under the buffer lock once its wait ends. */
  function Take(q: Queues, timeout: bool): Queues {
    var s := if q.alternate != [] then Queues(q.current, q.local, q.alternate) else q;
    if timeout then Queues([], s.alternate, s.local + s.current) else s
  }

  /** All queued bytes in the order they are to be written. */
  function Queued(q: Queues): string { Concat(q.local) + (Concat(q.alternate) + Concat(q.current)) }

  // ----- threads

  /** Waiting: inside wait_for, buffer lock released. Parked: between releasing the buffer lock and
      taking the file lock. Writing: holds the file lock, next names the buffer to write. */
  datatype LoggerPc = LoopHead | Waiting | Parked | Writing(next: nat) | Exited

  /** The destructor: not begun, has stopped the thread, holds the buffer lock, holds both, is over. */
  datatype DtorPc = Alive | Stopped | HasBuff | HasBoth | Gone

  /** A buffer that left the queues, and how much of it the file took. */
  datatype Chunk = Chunk(bytes: string, kept: nat) {
    predicate Complete() { kept >= |bytes| }

    function Filed(): string { bytes[..Min(kept, |bytes|)] }
  }

  datatype State = State(
    q: Queues, overflow: nat, running: bool, fileOpen: bool, logger: LoggerPc, dtor: DtorPc,
    ready: map<Tid, string>, // producers past the running check, waiting for the buffer lock
    accepted: string,        // history: every record appended, in buffer-lock order
    drained: seq<Chunk>)     // history: every buffer taken off the queues

  datatype Step =
    | Check(producer: Tid, record: string) // append sees the logger running
    | Append(p: Tid)                       // and then takes the buffer lock
    | SetOverflow(size: nat)
    | SetLogFile(isOpen: bool)
    | Stop
    | Loop                                 // the logger thread's loop test, up to its wait
    | Wake(timeout: bool)
    | LockFile
    | WriteOne(fault: Option<nat>)         // None: the write works; else how much a failing one keeps
    | FinishWrite
    | DtorStop | DtorLockBuff | DtorLockFile | DtorFlush(faults: seq<Option<nat>>)

  predicate BuffFree(s: State) { s.dtor != HasBuff && s.dtor != HasBoth }

  predicate FileFree(s: State) { !s.logger.Writing? && s.dtor != HasBoth }

  predicate Enabled(s: State, step: Step) {
    s.dtor != Gone &&
    match step
    case Check(p, record) => s.running && p !in s.ready && |record| <= CAPACITY
    case Append(p) => p in s.ready && BuffFree(s)
    case SetOverflow(size) => size > 0
    case SetLogFile(_) => FileFree(s)
    case Stop => true
    case Loop => s.logger == LoopHead && (BuffFree(s) || !s.running)
    case Wake(_) => s.logger == Waiting && BuffFree(s)
    case LockFile => s.logger == Parked && FileFree(s)
    case WriteOne(_) => s.logger.Writing? && s.logger.next < |s.q.local|
    case FinishWrite => s.logger.Writing? && s.logger.next >= |s.q.local|
    case DtorStop => s.dtor == Alive
    case DtorLockBuff => s.dtor == Stopped
    case DtorLockFile => s.dtor == HasBuff && FileFree(s)
    case DtorFlush(_) => s.dtor == HasBoth
  }

  /** One write of flush2LogFile. A write that fails reopens the log under an empty name, which fails
      and leaves the file closed. */
  function Write(b: string, isOpen: bool, fault: Option<nat>): Chunk {
    Chunk(b, if !isOpen then 0 else if fault.None? then |b| else fault.value)
  }

  function FaultNow(faults: seq<Option<nat>>): Option<nat> { if faults == [] then None else faults[0] }

  function FaultsLater(faults: seq<Option<nat>>): seq<Option<nat>> { if faults == [] then [] else faults[1..] }

  /** The writes of flush2LogFile; those after the listed faults work. */
  function Chunks(bs: seq<string>, isOpen: bool, faults: seq<Option<nat>>): (cs: seq<Chunk>)
    ensures |cs| == |bs|
    decreases |bs|
  {
    if bs == [] then []
    else
      [Write(bs[0], isOpen, FaultNow(faults))] + Chunks(bs[1..], isOpen && FaultNow(faults).None?, FaultsLater(faults))
  }

  predicate NoFault(n: nat, faults: seq<Option<nat>>) {
    forall i :: 0 <= i < Min(n, |faults|) ==> faults[i].None?
  }

  function Apply(s: State, step: Step): State
    requires Enabled(s, step)
  {
    match step
    case Check(p, record) => s.(ready := s.ready[p := record])
    case Append(p) =>
      var record := s.ready[p];
      s.(q := AppendTo(s.q, s.overflow, record), ready := s.ready - {p}, accepted := s.accepted + record)
    case SetOverflow(size) => s.(overflow := size)
    case SetLogFile(isOpen) => s.(fileOpen := isOpen)
    case Stop => s.(running := false)
    case Loop => if s.running then s.(logger := Waiting) else s.(logger := Exited)
    case Wake(timeout) => s.(q := Take(s.q, timeout), logger := Parked)
    case LockFile => s.(logger := Writing(0))
    case WriteOne(fault) =>
      s.(drained := s.drained + [Write(s.q.local[s.logger.next], s.fileOpen, fault)],
         fileOpen := s.fileOpen && fault.None?, logger := Writing(s.logger.next + 1))
    case FinishWrite => s.(q := s.q.(local := []), logger := LoopHead)
    case DtorStop => s.(running := false, dtor := Stopped)
    case DtorLockBuff => s.(dtor := HasBuff)
    case DtorLockFile => s.(dtor := HasBoth)
    case DtorFlush(faults) =>
      s.(drained := s.drained + Chunks(s.q.local + s.q.alternate + s.q.current, s.fileOpen, faults),
         q := Queues([], [], []), fileOpen := false, dtor := Gone)
  }

  // ----- runs

  /** A logger just constructed: queues empty, running, its thread at the loop test. */
  predicate Initial(s: State) {
    && s.q == Queues([], [], []) && s.overflow > 0 && s.running && s.logger == LoopHead && s.dtor == Alive
    && s.ready == map[] && s.accepted == "" && s.drained == []
  }

  predicate CanRun(s: State, steps: seq<Step>)
    decreases |steps|
  {
    steps == [] || (Enabled(s, steps[0]) && CanRun(Apply(s, steps[0]), steps[1..]))
  }

  function Exec(s: State, steps: seq<Step>): State
    requires CanRun(s, steps)
    decreases |steps|
  {
    if steps == [] then s else Exec(Apply(s, steps[0]), steps[1..])
  }

  // ----- what every step keeps

  function Bytes(cs: seq<Chunk>): string { if cs == [] then "" else cs[0].bytes + Bytes(cs[1..]) }

  /** The log file: what it took of the drained buffers. */
  function File(cs: seq<Chunk>): string {
    if cs == [] then "" else cs[0].Filed() + File(cs[1..])
  }

  /** The part of local the logger thread has not written yet. */
  function Unwritten(s: State): seq<string>
  {
    if s.logger.Writing? && s.logger.next <= |s.q.local| then s.q.local[s.logger.next..] else s.q.local
  }

  function StillQueued(s: State): string { Queued(s.q.(local := Unwritten(s))) }

  /** Any two neighbours hold more than one buffer's worth together. */
  predicate Dense(bs: seq<string>) {
    forall i :: 0 <= i < |bs| - 1 ==> |bs[i]| + |bs[i + 1]| > CAPACITY
  }

  predicate Bounded(bs: seq<string>) { forall i :: 0 <= i < |bs| ==> |bs[i]| <= CAPACITY }

  /** Who may hold what when, and how the buffers are packed. */
  ghost predicate Shape(s: State) {
    && s.overflow > 0
    && (s.logger.Writing? ==> s.logger.next <= |s.q.local| && s.dtor != HasBoth && s.dtor != Gone)
    && (s.logger == LoopHead || s.logger == Waiting || s.logger == Exited ==> s.q.local == [])
    && (s.q.alternate != [] ==> s.q.current != [])
    && Bounded(s.q.alternate + s.q.current) && Dense(s.q.alternate + s.q.current)
    && (forall p :: p in s.ready ==> |s.ready[p]| <= CAPACITY)
    && (s.dtor == Gone ==> s.q == Queues([], [], []))
  }

  ghost predicate Conserved(s: State) { Bytes(s.drained) + StillQueued(s) == s.accepted }

  ghost predicate Inv(s: State) { Shape(s) && Conserved(s) }

  // ----- the critical sections

  lemma {:induction false} PutKeepsBytes(current: seq<string>, record: string)
    ensures Concat(Put(current, record)) == Concat(current) + record
  {
    if current == [] || !Fits(Last(current), record) {
      ConcatAppend(current, [record]);
      assert Concat([record]) == record + "" == record;
    } else {
      var front, last := current[..|current| - 1], Last(current);
      assert current == front + [last];
      ConcatAppend(front, [last]);
      ConcatAppend(front, [last + record]);
      assert Concat([last]) == last + "" == last && Concat([last + record]) == (last + record) + "" == last + record;
      assert Concat(front) + (last + record) == (Concat(front) + last) + record;
    }
  }

  lemma {:induction false} AppendKeepsBytes(q: Queues, overflow: nat, record: string)
    ensures Queued(AppendTo(q, overflow, record)) == Queued(q) + record
  {
    PutKeepsBytes(q.current, record);
    PutKeepsBytes([], record);
    ConcatAppend(q.alternate, q.current);
    Regroup(Concat(q.local), Concat(q.alternate), Concat(q.current), record);
  }

  lemma Regroup(l: string, a: string, c: string, r: string)
    ensures l + (a + (c + r)) == (l + (a + c)) + r
    ensures l + ((a + c) + ("" + r)) == (l + (a + c)) + r
  {
  }

  lemma {:induction false} TakeKeepsBytes(q: Queues, timeout: bool)
    requires q.local == []
    ensures Queued(Take(q, timeout)) == Queued(q)
  {
    ConcatAppend(q.alternate, q.current);
    assert [] + q.current == q.current;
    var a, c := Concat(q.alternate), Concat(q.current);
    assert "" + (a + c) == a + c && a + ("" + c) == a + c && (a + c) + ("" + "") == a + c;
    assert c + ("" + "") == c && (q.alternate == [] ==> "" + (a + c) == c);
  }

  /** Packing: appending keeps every buffer within capacity and every two neighbours, across the
      border between alternate and current too, above one capacity, whatever the overflow setting. */
  lemma {:induction false} AppendKeepsDense(q: Queues, overflow: nat, record: string)
    requires Bounded(q.alternate + q.current) && Dense(q.alternate + q.current)
    requires |record| <= CAPACITY && overflow > 0 && (q.alternate != [] ==> q.current != [])
    ensures var q' := AppendTo(q, overflow, record);
            Bounded(q'.alternate + q'.current) && Dense(q'.alternate + q'.current)
  {
    var was, now := q.alternate + q.current, AppendTo(q, overflow, record);
    var all := now.alternate + now.current;
    if q.current != [] && Fits(Last(q.current), record) {
      assert all == was[..|was| - 1] + [Last(was) + record];
      DenseLonger(was, record);
    } else {
      assert all == was + [record];
      assert q.current != [] ==> Last(q.current) == Last(was);
      DenseOneMore(was, record);
    }
  }

  /** Exactly when appending moves current away: it has reached the overflow setting and its last buffer
      has no room for the record. Otherwise alternate is left alone. */
  lemma {:induction false} SpillsExactly(q: Queues, overflow: nat, record: string)
    requires q.current != []
    ensures var q' := AppendTo(q, overflow, record);
            if |q.current| < overflow || |Last(q.current)| + |record| <= 4096
            then q'.alternate == q.alternate && |q.current| <= |q'.current| <= |q.current| + 1
            else q'.alternate == q.alternate + q.current && q'.current == [record]
    ensures AppendTo(q, overflow, record).alternate == q.alternate <==>
            |q.current| < overflow || |Last(q.current)| + |record| <= 4096
  {
    assert |q.alternate + q.current| > |q.alternate|;
  }

  lemma {:induction false} DenseLonger(bs: seq<string>, record: string)
    requires bs != [] && Bounded(bs) && Dense(bs) && Fits(Last(bs), record)
    ensures var longer := bs[..|bs| - 1] + [Last(bs) + record]; Bounded(longer) && Dense(longer)
  {
    var longer := bs[..|bs| - 1] + [Last(bs) + record];
    forall i | 0 <= i < |longer| - 1 ensures |longer[i]| + |longer[i + 1]| > CAPACITY {
      assert |bs[i]| + |bs[i + 1]| > CAPACITY;
    }
  }

  lemma {:induction false} DenseOneMore(bs: seq<string>, record: string)
    requires Bounded(bs) && Dense(bs) && |record| <= CAPACITY && (bs != [] ==> !Fits(Last(bs), record))
    ensures Bounded(bs + [record]) && Dense(bs + [record])
  {
    var more := bs + [record];
    forall i | 0 <= i < |more| - 1 ensures |more[i]| + |more[i + 1]| > CAPACITY {
      if i < |bs| - 1 {
        assert |bs[i]| + |bs[i + 1]| > CAPACITY;
      }
    }
  }

  lemma {:induction false} BytesAppend(a: seq<Chunk>, b: seq<Chunk>)
    ensures Bytes(a + b) == Bytes(a) + Bytes(b)
  {
    if a == [] {
      assert a + b == b;
    } else {
      assert (a + b)[1..] == a[1..] + b;
      BytesAppend(a[1..], b);
    }
  }

  lemma {:induction false} BytesOfChunks(bs: seq<string>, isOpen: bool, faults: seq<Option<nat>>)
    ensures Bytes(Chunks(bs, isOpen, faults)) == Concat(bs)
    decreases |bs|
  {
    if bs != [] {
      var fault := FaultNow(faults);
      var more := FaultsLater(faults);
      BytesOfChunks(bs[1..], isOpen && fault.None?, more);
      assert Chunks(bs, isOpen, faults)[1..] == Chunks(bs[1..], isOpen && fault.None?, more);
    }
  }

  lemma {:induction false} FaultStep(n: nat, faults: seq<Option<nat>>)
    requires n > 0
    ensures var more := FaultsLater(faults);
            && more[Min(n - 1, |more|)..] == faults[Min(n, |faults|)..]
            && (NoFault(n, faults) <==> FaultNow(faults).None? && NoFault(n - 1, more))
  {
    var more := FaultsLater(faults);
    assert forall i :: 0 <= i < |more| ==> more[i] == faults[i + 1];
    assert forall i :: 0 < i < |faults| ==> faults[i] == more[i - 1];
  }

  lemma {:induction false} ChunksAppend(a: seq<string>, b: seq<string>, isOpen: bool, faults: seq<Option<nat>>)
    ensures Chunks(a + b, isOpen, faults) ==
            Chunks(a, isOpen, faults) + Chunks(b, isOpen && NoFault(|a|, faults), faults[Min(|a|, |faults|)..])
    decreases |a|
  {
    if a == [] {
      assert a + b == b && faults[0..] == faults;
    } else {
      var fault, more := FaultNow(faults), FaultsLater(faults);
      assert (a + b)[1..] == a[1..] + b;
      FaultStep(|a|, faults);
      hide NoFault, FaultNow, FaultsLater, Write;
      ChunksAppend(a[1..], b, isOpen && fault.None?, more);
      Associate([Write(a[0], isOpen, fault)], Chunks(a[1..], isOpen && fault.None?, more),
                Chunks(b, isOpen && NoFault(|a|, faults), faults[Min(|a|, |faults|)..]));
    }
  }

  lemma {:induction false} FileAppend(a: seq<Chunk>, b: seq<Chunk>)
    ensures File(a + b) == File(a) + File(b)
  {
    if a == [] {
      assert a + b == b;
    } else {
      assert (a + b)[1..] == a[1..] + b;
      FileAppend(a[1..], b);
      Associate(a[0].Filed(), File(a[1..]), File(b));
    }
  }

  /** Written to an open file without a fault, buffers arrive as they are. */
  lemma {:induction false} FaultlessFile(bs: seq<string>, faults: seq<Option<nat>>)
    requires NoFault(|bs|, faults)
    ensures File(Chunks(bs, true, faults)) == Concat(bs)
    decreases |bs|
  {
    if bs != [] {
      var more := FaultsLater(faults);
      assert faults != [] ==> faults[0].None?;
      assert forall i :: 0 <= i < |more| ==> more[i] == faults[i + 1];
      FaultlessFile(bs[1..], more);
      assert Chunks(bs, true, faults)[1..] == Chunks(bs[1..], true, more);
      assert bs[0][..|bs[0]|] == bs[0];
    }
  }

  lemma {:induction false} ClosedFile(bs: seq<string>, faults: seq<Option<nat>>)
    ensures File(Chunks(bs, false, faults)) == ""
    decreases |bs|
  {
    if bs != [] {
      var more := FaultsLater(faults);
      ClosedFile(bs[1..], more);
      assert Chunks(bs, false, faults)[1..] == Chunks(bs[1..], false, more);
      assert bs[0][..0] == "";
    }
  }

  // ----- every step keeps the invariant

  lemma {:induction false} AppendKeepsShape(s: State, p: Tid)
    requires Shape(s) && Enabled(s, Append(p))
    ensures Shape(Apply(s, Append(p)))
  {
    AppendKeepsDense(s.q, s.overflow, s.ready[p]);
    assert AppendTo(s.q, s.overflow, s.ready[p]).current != [];
    hide AppendTo, Dense, Bounded;
  }

  lemma {:induction false} AppendConserves(s: State, p: Tid)
    requires Conserved(s) && Enabled(s, Append(p))
    ensures Conserved(Apply(s, Append(p)))
  {
    var record, t := s.ready[p], Apply(s, Append(p));
    AppendKeepsBytes(s.q.(local := Unwritten(s)), s.overflow, record);
    assert t.q.(local := Unwritten(t)) == AppendTo(s.q.(local := Unwritten(s)), s.overflow, record);
    hide AppendTo, Queued, Unwritten;
    assert Bytes(s.drained) + (StillQueued(s) + record) == (Bytes(s.drained) + StillQueued(s)) + record;
  }

  lemma {:induction false} WakeStep(s: State, timeout: bool)
    requires Inv(s) && Enabled(s, Wake(timeout))
    ensures Inv(Apply(s, Wake(timeout)))
  {
    var t := Apply(s, Wake(timeout));
    TakeKeepsBytes(s.q, timeout);
    assert s.q.(local := Unwritten(s)) == s.q && t.q.(local := Unwritten(t)) == t.q;
    DenseSuffix(s.q.alternate, s.q.current);
    assert t.q.alternate + t.q.current == if timeout then [] else s.q.current;
  }

  lemma {:induction false} DenseSuffix(a: seq<string>, c: seq<string>)
    requires Bounded(a + c) && Dense(a + c)
    ensures Bounded(c) && Dense(c)
  {
    forall i | 0 <= i < |c| ensures |c[i]| <= CAPACITY {
      assert c[i] == (a + c)[|a| + i];
    }
    DenseTail(a, c);
  }

  lemma Reassociate(a: string, b: string, c: string, d: string)
    ensures a + ((b + c) + d) == (a + b) + (c + d)
  {
  }

  lemma {:induction false} WriteStep(s: State, fault: Option<nat>)
    requires Inv(s) && Enabled(s, WriteOne(fault))
    ensures Inv(Apply(s, WriteOne(fault)))
  {
    var t, i := Apply(s, WriteOne(fault)), s.logger.next;
    var chunk := Write(s.q.local[i], s.fileOpen, fault);
    BytesAppend(s.drained, [chunk]);
    assert Bytes([chunk]) == chunk.bytes + "" == chunk.bytes;
    assert s.q.local[i..] == [s.q.local[i]] + s.q.local[i + 1..];
    assert Concat(Unwritten(s)) == chunk.bytes + Concat(Unwritten(t));
    Reassociate(Bytes(s.drained), chunk.bytes, Concat(Unwritten(t)), Concat(s.q.alternate) + Concat(s.q.current));
  }

  lemma {:induction false} FlushStep(s: State, faults: seq<Option<nat>>)
    requires Inv(s) && Enabled(s, DtorFlush(faults))
    ensures Inv(Apply(s, DtorFlush(faults)))
  {
    var all := s.q.local + s.q.alternate + s.q.current;
    hide Chunks, Concat, Bytes, Dense, Bounded;
    BytesAppend(s.drained, Chunks(all, s.fileOpen, faults));
    BytesOfChunks(all, s.fileOpen, faults);
    ConcatAppend(s.q.local + s.q.alternate, s.q.current);
    ConcatAppend(s.q.local, s.q.alternate);
    Associate(Concat(s.q.local), Concat(s.q.alternate), Concat(s.q.current));
    NothingQueued(Bytes(s.drained + Chunks(all, s.fileOpen, faults)));
  }

  lemma NothingQueued(drained: string)
    ensures drained + Queued(Queues([], [], [])) == drained
    ensures Bounded([] + []) && Dense([] + [])
  {
  }

  lemma {:induction false} StepKeepsInv(s: State, step: Step)
    requires Inv(s) && Enabled(s, step)
    ensures Inv(Apply(s, step))
  {
    match step
    case Append(p) =>
      AppendKeepsShape(s, p);
      AppendConserves(s, p);
    case Wake(timeout) => WakeStep(s, timeout);
    case WriteOne(fault) => WriteStep(s, fault);
    case DtorFlush(faults) => FlushStep(s, faults);
    case LockFile => assert s.q.local[0..] == s.q.local;
    case FinishWrite => assert Unwritten(s) == [];
    case _ =>
  }

  lemma {:induction false} RunKeepsInv(s: State, steps: seq<Step>)
    requires Inv(s) && CanRun(s, steps)
    ensures Inv(Exec(s, steps))
    decreases |steps|
  {
    if steps != [] {
      StepKeepsInv(s, steps[0]);
      RunKeepsInv(Apply(s, steps[0]), steps[1..]);
    }
  }

  /** In every state of every run, bytes drained, then local, alternate and current bytes, are all the
      accepted records in buffer-lock order: nothing lost, duplicated or reordered inside the logger. */
  lemma {:induction false} Conservation(s: State, steps: seq<Step>)
    requires Initial(s) && CanRun(s, steps)
    ensures var t := Exec(s, steps); Shape(t) && Bytes(t.drained) + StillQueued(t) == t.accepted
  {
    RunKeepsInv(s, steps);
  }

  lemma {:induction false} FileLength(cs: seq<Chunk>)
    ensures |File(cs)| <= |Bytes(cs)|
    ensures if forall i :: 0 <= i < |cs| ==> cs[i].Complete()
            then File(cs) == Bytes(cs) else |File(cs)| < |Bytes(cs)|
  {
    if cs != [] {
      FileLength(cs[1..]);
      assert cs[0].Complete() ==> cs[0].Filed() == cs[0].bytes;
      assert forall i :: 0 < i < |cs| ==> cs[i] == cs[1..][i - 1];
    }
  }

  lemma {:induction false} CompleteFile(s: State)
    requires Inv(s)
    ensures File(s.drained) + StillQueued(s) == s.accepted <==> AllComplete(s.drained)
  {
    FileLength(s.drained);
    assert |File(s.drained) + StillQueued(s)| == |File(s.drained)| + |StillQueued(s)|;
  }

  ghost predicate AllComplete(cs: seq<Chunk>) { forall i :: 0 <= i < |cs| ==> cs[i].Complete() }

  /** A write that loses bytes: of a non-empty buffer, to a closed file, or failing before its end. */
  predicate Loses(b: string, isOpen: bool, fault: Option<nat>) {
    b != "" && (!isOpen || (fault.Some? && fault.value < |b|))
  }

  /** One of the writes of flush2LogFile loses bytes. */
  predicate AnyLoses(bs: seq<string>, isOpen: bool, faults: seq<Option<nat>>)
    decreases |bs|
  {
    bs != [] &&
    (|| Loses(bs[0], isOpen, FaultNow(faults))
     || AnyLoses(bs[1..], isOpen && FaultNow(faults).None?, FaultsLater(faults)))
  }

  /** A step that loses bytes of the log. */
  predicate StepLoses(s: State, step: Step)
    requires Enabled(s, step)
  {
    match step
    case WriteOne(fault) => Loses(s.q.local[s.logger.next], s.fileOpen, fault)
    case DtorFlush(faults) => AnyLoses(s.q.local + s.q.alternate + s.q.current, s.fileOpen, faults)
    case _ => false
  }

  /** No step of the run loses bytes of the log. */
  predicate LosesNothing(s: State, steps: seq<Step>)
    requires CanRun(s, steps)
    decreases |steps|
  {
    steps == [] || (!StepLoses(s, steps[0]) && LosesNothing(Apply(s, steps[0]), steps[1..]))
  }

  lemma {:induction false} LossShows(bs: seq<string>, isOpen: bool, faults: seq<Option<nat>>)
    ensures AllComplete(Chunks(bs, isOpen, faults)) <==> !AnyLoses(bs, isOpen, faults)
    decreases |bs|
  {
    if bs != [] {
      var cs, stays, later := Chunks(bs, isOpen, faults), isOpen && FaultNow(faults).None?, FaultsLater(faults);
      LossShows(bs[1..], stays, later);
      hide FaultNow, FaultsLater, AnyLoses, Chunks;
      assert cs == [Write(bs[0], isOpen, FaultNow(faults))] + Chunks(bs[1..], stays, later) by {
        ChunksUnfold(bs, isOpen, faults);
      }
      AllCompleteAppend([cs[0]], Chunks(bs[1..], stays, later));
      ChunksUnfold(bs, isOpen, faults);
    }
  }

  lemma ChunksUnfold(bs: seq<string>, isOpen: bool, faults: seq<Option<nat>>)
    requires bs != []
    ensures var stays, later := isOpen && FaultNow(faults).None?, FaultsLater(faults);
            && Chunks(bs, isOpen, faults) == [Write(bs[0], isOpen, FaultNow(faults))] + Chunks(bs[1..], stays, later)
            && (AnyLoses(bs, isOpen, faults) <==>
                Loses(bs[0], isOpen, FaultNow(faults)) || AnyLoses(bs[1..], stays, later))
  {
  }

  lemma {:induction false} AllCompleteAppend(a: seq<Chunk>, b: seq<Chunk>)
    ensures AllComplete(a + b) <==> AllComplete(a) && AllComplete(b)
  {
    if AllComplete(a + b) {
      assert forall i :: 0 <= i < |a| ==> a[i] == (a + b)[i];
      assert forall i :: 0 <= i < |b| ==> b[i] == (a + b)[|a| + i];
    }
  }

  lemma {:induction false} StepLossShows(s: State, step: Step)
    requires Enabled(s, step)
    ensures AllComplete(Apply(s, step).drained) <==> AllComplete(s.drained) && !StepLoses(s, step)
  {
    match step
    case WriteOne(fault) =>
      var chunk := Write(s.q.local[s.logger.next], s.fileOpen, fault);
      AllCompleteAppend(s.drained, [chunk]);
      assert AllComplete([chunk]) <==> [chunk][0].Complete();
    case DtorFlush(faults) =>
      var all := s.q.local + s.q.alternate + s.q.current;
      AllCompleteAppend(s.drained, Chunks(all, s.fileOpen, faults));
      LossShows(all, s.fileOpen, faults);
    case _ =>
  }

  lemma {:induction false} RunLossShows(s: State, steps: seq<Step>)
    requires CanRun(s, steps)
    ensures AllComplete(Exec(s, steps).drained) <==> AllComplete(s.drained) && LosesNothing(s, steps)
    decreases |steps|
  {
    hide Apply, Enabled, AllComplete, StepLoses;
    if steps != [] {
      StepLossShows(s, steps[0]);
      RunLossShows(Apply(s, steps[0]), steps[1..]);
    }
  }

  /** The file holds the drained part of the history, so that file bytes, then queued bytes, are the
      whole history, if and only if no step of the run drained a non-empty buffer while the file was
      closed or with a write that failed before its end. */
  lemma {:induction false} FileHoldsHistory(s: State, steps: seq<Step>)
    requires Initial(s) && CanRun(s, steps)
    ensures var t := Exec(s, steps);
            File(t.drained) + StillQueued(t) == t.accepted <==> LosesNothing(s, steps)
  {
    RunKeepsInv(s, steps);
    CompleteFile(Exec(s, steps));
    RunLossShows(s, steps);
  }

  /** A step that closes the file, or meets a write that fails. */
  predicate Faulty(step: Step) {
    match step
    case SetLogFile(isOpen) => !isOpen
    case WriteOne(fault) => fault.Some?
    case DtorFlush(faults) => exists i :: 0 <= i < |faults| && faults[i].Some?
    case _ => false
  }

  lemma {:induction false} OpenFileTakesAll(s: State, steps: seq<Step>)
    requires CanRun(s, steps) && (s.fileOpen || s.dtor == Gone)
    requires forall i :: 0 <= i < |steps| ==> !Faulty(steps[i])
    ensures LosesNothing(s, steps)
    decreases |steps|
  {
    if steps != [] {
      var t := Apply(s, steps[0]);
      assert !Faulty(steps[0]);
      if steps[0].DtorFlush? {
        FaultlessWrites(s.q.local + s.q.alternate + s.q.current, steps[0].faults);
      }
      hide AnyLoses, LosesNothing;
      OpenFileTakesAll(t, steps[1..]);
      LosesNothingMore(s, steps);
    }
  }

  lemma LosesNothingMore(s: State, steps: seq<Step>)
    requires CanRun(s, steps) && steps != []
    ensures LosesNothing(s, steps) <==> !StepLoses(s, steps[0]) && LosesNothing(Apply(s, steps[0]), steps[1..])
  {
  }

  lemma {:induction false} FaultlessWrites(bs: seq<string>, faults: seq<Option<nat>>)
    requires forall i :: 0 <= i < |faults| ==> faults[i].None?
    ensures !AnyLoses(bs, true, faults)
    decreases |bs|
  {
    if bs != [] {
      FaultlessWrites(bs[1..], FaultsLater(faults));
    }
  }

  /** A closed file takes nothing until it is opened again. */
  lemma {:induction false} ClosedTakesNothing(s: State, steps: seq<Step>)
    requires CanRun(s, steps) && !s.fileOpen && SetLogFile(true) !in steps
    ensures !Exec(s, steps).fileOpen && File(Exec(s, steps).drained) == File(s.drained)
    decreases |steps|
  {
    if steps != [] {
      var step := steps[0];
      match step {
        case WriteOne(fault) =>
          var chunk := Write(s.q.local[s.logger.next], false, fault);
          FileAppend(s.drained, [chunk]);
          assert File([chunk]) == "" + "" == "";
        case DtorFlush(faults) =>
          var all := s.q.local + s.q.alternate + s.q.current;
          FileAppend(s.drained, Chunks(all, false, faults));
          ClosedFile(all, faults);
        case _ =>
      }
      assert File(s.drained) + "" == File(s.drained);
      ClosedTakesNothing(Apply(s, step), steps[1..]);
    }
  }

  /** A write that fails is the last the file takes anything of, until it is opened again. */
  lemma {:induction false} FaultEndsLog(s: State, k: nat, steps: seq<Step>)
    requires Enabled(s, WriteOne(Some(k))) && CanRun(Apply(s, WriteOne(Some(k))), steps)
    requires SetLogFile(true) !in steps
    ensures var b := s.q.local[s.logger.next];
            File(Exec(Apply(s, WriteOne(Some(k))), steps).drained) ==
            File(s.drained) + if s.fileOpen then b[..Min(k, |b|)] else ""
  {
    var t := Apply(s, WriteOne(Some(k)));
    var chunk := Write(s.q.local[s.logger.next], s.fileOpen, Some(k));
    ClosedTakesNothing(t, steps);
    FileAppend(s.drained, [chunk]);
    assert File([chunk]) == chunk.Filed() + "" == chunk.Filed();
  }

  /** With the file open from the start, or opened by the first step, never closed by a failed reopening and
      no write failing, every
      state of every run has file bytes, then local, alternate and current bytes, equal to the accepted
      history. */
  lemma {:induction false} OpenLogLosesNothing(s: State, steps: seq<Step>)
    requires Initial(s) && CanRun(s, steps) && (s.fileOpen || (steps != [] && steps[0] == SetLogFile(true)))
    requires forall i :: 0 <= i < |steps| ==> !Faulty(steps[i])
    ensures var t := Exec(s, steps); File(t.drained) + StillQueued(t) == t.accepted
  {
    if s.fileOpen {
      OpenFileTakesAll(s, steps);
    } else {
      OpenFileTakesAll(Apply(s, steps[0]), steps[1..]);
    }
    FileHoldsHistory(s, steps);
  }

  lemma {:induction false} OneStepMore(s: State, step: Step, rest: seq<Step>)
    requires Enabled(s, step) && CanRun(Apply(s, step), rest)
    ensures CanRun(s, [step] + rest) && Exec(s, [step] + rest) == Exec(Apply(s, step), rest)
    ensures rest == [] ==> Exec(s, [step] + rest) == Apply(s, step)
  {
    assert ([step] + rest)[1..] == rest;
  }

  lemma {:induction false} ClosedWrite(s: State)
    requires Enabled(s, WriteOne(None)) && s.logger == Writing(0) && !s.fileOpen
    requires s.q == Queues([], [], ["x"]) && s.drained == []
    ensures var t := Apply(s, WriteOne(None)); File(t.drained) == "" && StillQueued(t) == ""
  {
    var t := Apply(s, WriteOne(None));
    assert t.drained == [Chunk("x", 0)] && t.drained[1..] == [];
    assert Unwritten(t) == [];
    assert t.q.(local := Unwritten(t)) == Queues([], [], []);
    assert Queued(Queues([], [], [])) == "" + ("" + "") == "";
  }

  lemma {:induction false} FirstRecord(s: State) returns (t: State)
    requires Initial(s)
    ensures t == s.(logger := Waiting, q := Queues(["x"], [], []), accepted := "x")
    ensures CanRun(s, [Loop, Check(0, "x"), Append(0)]) && Exec(s, [Loop, Check(0, "x"), Append(0)]) == t
  {
    var s1 := Apply(s, Loop);
    var s2 := Apply(s1, Check(0, "x"));
    t := Apply(s2, Append(0));
    assert t.q == Queues(["x"], [], []) && t.ready == map[] && t.accepted == "" + "x" == "x";
    hide Apply, Enabled;
    OneStepMore(s2, Append(0), []);
    OneStepMore(s1, Check(0, "x"), [Append(0)]);
    OneStepMore(s, Loop, [Check(0, "x"), Append(0)]);
  }

  lemma {:induction false} RecordDropped(s: State) returns (t: State)
    requires s.logger == Waiting && s.dtor == Alive && !s.fileOpen && s.q == Queues(["x"], [], []) && s.drained == []
    ensures CanRun(s, [Wake(true), LockFile, WriteOne(None)]) && Exec(s, [Wake(true), LockFile, WriteOne(None)]) == t
    ensures t.accepted == s.accepted && File(t.drained) == "" && StillQueued(t) == ""
  {
    var s1 := Apply(s, Wake(true));
    assert s1.q == Queues([], [], ["x"]);
    var s2 := Apply(s1, LockFile);
    t := Apply(s2, WriteOne(None));
    ClosedWrite(s2);
    hide Apply, Enabled;
    OneStepMore(s2, WriteOne(None), []);
    OneStepMore(s1, LockFile, [WriteOne(None)]);
    OneStepMore(s, Wake(true), [LockFile, WriteOne(None)]);
  }

  lemma {:induction false} RunOn(s: State, a: seq<Step>, b: seq<Step>)
    requires CanRun(s, a) && CanRun(Exec(s, a), b)
    ensures CanRun(s, a + b) && Exec(s, a + b) == Exec(Exec(s, a), b)
    decreases |a|
  {
    if a == [] {
      assert a + b == b;
    } else {
      assert (a + b)[1..] == a[1..] + b;
      hide Apply, Enabled;
      RunOn(Apply(s, a[0]), a[1..], b);
    }
  }

  /** A log that is not open drops what is drained: one record, one timeout, and it is gone. */
  lemma {:induction false} ClosedLogDrops(s: State)
    requires Initial(s) && !s.fileOpen
    ensures exists steps :: CanRun(s, steps) &&
              var t := Exec(s, steps); t.accepted == "x" && File(t.drained) == "" && StillQueued(t) == ""
  {
    var t := FirstRecord(s);
    var u := RecordDropped(t);
    hide CanRun, Exec;
    RunOn(s, [Loop, Check(0, "x"), Append(0)], [Wake(true), LockFile, WriteOne(None)]);
  }

  // ----- shutdown

  /** Shutdown is complete: once the destructor is over, the queues are empty and the drained bytes
      are the whole accepted history, each byte once; the file equals it if and only if no step of the
      run lost bytes of it. */
  lemma {:induction false} ShutdownIsComplete(s: State, steps: seq<Step>)
    requires Initial(s) && CanRun(s, steps) && Exec(s, steps).dtor == Gone
    ensures var t := Exec(s, steps);
            && t.q == Queues([], [], []) && Bytes(t.drained) == t.accepted
            && (File(t.drained) == t.accepted <==> LosesNothing(s, steps))
  {
    var t := Exec(s, steps);
    Conservation(s, steps);
    FileHoldsHistory(s, steps);
    assert Unwritten(t) == [] && StillQueued(t) == "";
    assert Bytes(t.drained) + "" == Bytes(t.drained) && File(t.drained) + "" == File(t.drained);
  }

  /** Steps the destructor still needs: its own, and those of a logger thread that holds the file. */
  function StepsLeft(s: State): nat {
    match s.dtor
    case Gone => 0
    case HasBoth => 1
    case HasBuff => 2 + WriterSteps(s)
    case Stopped => 3 + WriterSteps(s)
    case Alive => 4 + WriterSteps(s)
  }

  function WriterSteps(s: State): nat {
    if !s.logger.Writing? then 0
    else if s.logger.next <= |s.q.local| then 1 + |s.q.local| - s.logger.next else 1
  }

  function NextOfShutdown(s: State): Step {
    match s.dtor
    case Alive => DtorStop
    case Stopped => DtorLockBuff
    case HasBuff =>
      if !s.logger.Writing? then DtorLockFile else if s.logger.next < |s.q.local| then WriteOne(None) else FinishWrite
    case _ => DtorFlush([])
  }

  lemma {:induction false} ShutdownStep(s: State)
    requires Inv(s) && s.dtor != Gone
    ensures var step := NextOfShutdown(s);
            && Enabled(s, step)
            && var t := Apply(s, step);
               StepsLeft(t) == StepsLeft(s) - 1 && t.accepted == s.accepted && (t.dtor == Gone <==> StepsLeft(t) == 0)
  {
  }

  lemma {:induction false} GoneIsDrained(s: State)
    requires Inv(s) && s.dtor == Gone
    ensures Bytes(s.drained) == s.accepted
  {
    assert Unwritten(s) == [] && StillQueued(s) == "";
    assert Bytes(s.drained) + "" == Bytes(s.drained);
  }

  /** From every reachable state, whatever the logger thread is doing, the destructor can come to its
      end through its own steps and at most those of a write in progress. */
  lemma {:induction false} ShutdownCanFinish(s: State) returns (steps: seq<Step>)
    requires Inv(s) && s.dtor != Gone
    ensures CanRun(s, steps) && |steps| == StepsLeft(s)
    ensures var t := Exec(s, steps);
            t.dtor == Gone && t.accepted == s.accepted && Bytes(t.drained) == s.accepted
    decreases StepsLeft(s)
  {
    var step := NextOfShutdown(s);
    ShutdownStep(s);
    StepKeepsInv(s, step);
    hide Inv, Enabled, Apply, StepsLeft, NextOfShutdown;
    var t := Apply(s, step);
    var more := [];
    if t.dtor == Gone {
      GoneIsDrained(t);
    } else {
      more := ShutdownCanFinish(t);
    }
    steps := [step] + more;
    OneStepMore(s, step, more);
  }

  /** Steps that belong to no thread the destructor waits for. */
  predicate Setting(step: Step) { step.SetOverflow? || step.SetLogFile? || step.Stop? }

  function Moves(steps: seq<Step>): nat {
    if steps == [] then 0 else (if Setting(steps[0]) then 0 else 1) + Moves(steps[1..])
  }

  function LoggerStage(pc: LoggerPc): nat {
    match pc
    case Waiting => 4
    case Parked => 3
    case Writing(_) => 2
    case LoopHead => 1
    case Exited => 0
  }

  function DtorStage(pc: DtorPc): nat {
    match pc
    case Alive => 4
    case Stopped => 3
    case HasBuff => 2
    case HasBoth => 1
    case Gone => 0
  }

  /** What is left to do once the logger has stopped: threads on their way, and buffers to write, of
      which each record still to be appended may make one. */
  function Work(s: State): nat {
    2 * |s.ready| + DtorStage(s.dtor) + LoggerStage(s.logger) + |s.q.current| + |s.q.alternate| + |Unwritten(s)|
  }

  lemma {:induction false} StepDoesWork(s: State, step: Step)
    requires Inv(s) && !s.running && Enabled(s, step)
    ensures var t := Apply(s, step);
            !t.running && if Setting(step) then Work(t) == Work(s) else Work(t) < Work(s)
  {
    match step
    case Append(p) => AppendDoesWork(s, p);
    case Wake(timeout) => WakeDoesWork(s, timeout);
    case LockFile => LoggerDoesWork(s, step);
    case WriteOne(_) => LoggerDoesWork(s, step);
    case FinishWrite => LoggerDoesWork(s, step);
    case DtorFlush(faults) => FlushDoesWork(s, faults);
    case _ =>
  }

  lemma {:induction false} LoggerDoesWork(s: State, step: Step)
    requires Enabled(s, step) && (step.LockFile? || step.WriteOne? || step.FinishWrite?)
    ensures Work(Apply(s, step)) < Work(s)
  {
  }

  lemma {:induction false} FlushDoesWork(s: State, faults: seq<Option<nat>>)
    requires Inv(s) && Enabled(s, DtorFlush(faults))
    ensures Work(Apply(s, DtorFlush(faults))) < Work(s)
  {
    assert !s.logger.Writing?;
    hide Inv, Chunks;
  }

  lemma {:induction false} AppendDoesWork(s: State, p: Tid)
    requires Enabled(s, Append(p))
    ensures Work(Apply(s, Append(p))) < Work(s)
  {
    var ready := s.ready - {p};
    assert ready.Keys == s.ready.Keys - {p};
    assert |ready.Keys| == |s.ready.Keys| - 1;
    assert Unwritten(Apply(s, Append(p))) == Unwritten(s);
    hide Unwritten;
  }

  lemma {:induction false} WakeDoesWork(s: State, timeout: bool)
    requires Inv(s) && Enabled(s, Wake(timeout))
    ensures Work(Apply(s, Wake(timeout))) < Work(s)
  {
    assert s.q.local == [];
    hide Inv;
  }

  /** Whatever the schedule, and however settings change meanwhile, a stopped logger makes no more steps
      than there is work left. */
  lemma {:induction false} ShutdownIsBounded(s: State, steps: seq<Step>)
    requires Inv(s) && !s.running && CanRun(s, steps)
    ensures Inv(Exec(s, steps)) && Moves(steps) + Work(Exec(s, steps)) <= Work(s)
    decreases |steps|
  {
    if steps != [] {
      StepKeepsInv(s, steps[0]);
      StepDoesWork(s, steps[0]);
      hide Inv, Enabled, Apply, Work, Setting;
      ShutdownIsBounded(Apply(s, steps[0]), steps[1..]);
    }
  }

  /** Every schedule of a shutdown ends, and ends well. Once the logger is stopped, by the destructor or
      before it, no run takes more than Work(s) steps beside changes of settings, and a run that
      cannot go on has the destructor over and everything accepted drained: there is no deadlock. */
  lemma {:induction false} ShutdownFinishes(s: State, steps: seq<Step>)
    requires Inv(s) && !s.running && CanRun(s, steps)
    ensures Moves(steps) <= Work(s)
    ensures var t := Exec(s, steps);
            (forall step | Enabled(t, step) :: Setting(step)) <==> t.dtor == Gone
    ensures var t := Exec(s, steps);
            t.dtor == Gone ==> t.q == Queues([], [], []) && Bytes(t.drained) == t.accepted
  {
    ShutdownIsBounded(s, steps);
    var t := Exec(s, steps);
    hide Work, CanRun;
    if t.dtor == Gone {
      GoneIsDrained(t);
    } else {
      ShutdownStep(t);
      assert !Setting(NextOfShutdown(t));
    }
  }

  // ----- what the threads can always do

  /** The records appended, in order: each the one its producer had checked in. */
  function Records(ready: map<Tid, string>, steps: seq<Step>): string
    decreases |steps|
  {
    if steps == [] then ""
    else
      match steps[0]
      case Check(p, record) => Records(ready[p := record], steps[1..])
      case Append(p) => (if p in ready then ready[p] else "") + Records(ready - {p}, steps[1..])
      case _ => Records(ready, steps[1..])
  }

  /** The accepted history is exactly the records producers appended, whole and in the order of their
      appends. */
  lemma {:induction false} AcceptedExactly(s: State, steps: seq<Step>)
    requires CanRun(s, steps)
    ensures Exec(s, steps).accepted == s.accepted + Records(s.ready, steps)
    decreases |steps|
  {
    if steps == [] {
      assert s.accepted + "" == s.accepted;
    } else {
      var t := Apply(s, steps[0]);
      AcceptedExactly(t, steps[1..]);
      if steps[0].Append? {
        Associate(s.accepted, s.ready[steps[0].p], Records(t.ready, steps[1..]));
      }
    }
  }

  /** Until the destructor takes the buffer lock no thread waits for another: producers can check in and
      append, and the logger thread can take its next step, whatever state it is in. */
  lemma {:induction false} NoThreadWaits(s: State)
    requires Inv(s) && (s.dtor == Alive || s.dtor == Stopped)
    ensures forall p :: p in s.ready <==> Enabled(s, Append(p))
    ensures forall p, record :: Enabled(s, Check(p, record)) <==> s.running && p !in s.ready && |record| <= 4096
    ensures match s.logger
            case LoopHead => Enabled(s, Loop)
            case Waiting => forall timeout :: Enabled(s, Wake(timeout))
            case Parked => Enabled(s, LockFile)
            case Writing(i) =>
              if i < |s.q.local| then forall fault :: Enabled(s, WriteOne(fault)) else Enabled(s, FinishWrite)
            case Exited => true
  {
  }

  /** The locks exclude: while the destructor holds the buffer lock no record is appended and nothing is
      taken off the queues, and only a stopped logger thread passes its loop test; while the logger
      thread writes, or the destructor holds both locks, no other thread has the file. A logger that is
      destroyed does nothing more, and until then it can be stopped. */
  lemma {:induction false} LocksExclude(s: State)
    ensures s.dtor == HasBuff || s.dtor == HasBoth ==>
      && (forall p :: !Enabled(s, Append(p))) && (forall timeout :: !Enabled(s, Wake(timeout)))
      && (Enabled(s, Loop) <==> s.logger == LoopHead && !s.running)
    ensures s.logger.Writing? ==> !Enabled(s, DtorLockFile)
    ensures s.dtor == HasBoth ==> !Enabled(s, LockFile)
    ensures forall isOpen ::
      Enabled(s, SetLogFile(isOpen)) <==> !s.logger.Writing? && s.dtor != HasBoth && s.dtor != Gone
    ensures Enabled(s, Stop) <==> s.dtor != Gone
    ensures s.dtor == Gone ==> forall step :: !Enabled(s, step)
  {
  }

  /** Once stopped, by a call or by the destructor, the logger takes no new record: only those already
      checked in are still appended. */
  lemma {:induction false} StopRefuses(s: State, step: Step, steps: seq<Step>)
    requires (step == Stop || step == DtorStop) && Enabled(s, step) && CanRun(Apply(s, step), steps)
    ensures forall i :: 0 <= i < |steps| ==> !steps[i].Check?
  {
    StoppedRefuses(Apply(s, step), steps);
  }

  lemma {:induction false} StoppedRefuses(s: State, steps: seq<Step>)
    requires !s.running && CanRun(s, steps)
    ensures forall i :: 0 <= i < |steps| ==> !steps[i].Check?
    decreases |steps|
  {
    if steps != [] {
      StoppedRefuses(Apply(s, steps[0]), steps[1..]);
    }
  }

  function Writes(n: nat): seq<Step> { seq(n, _ => WriteOne(None)) }

  lemma {:induction false} WritesRun(s: State)
    requires s.dtor != Gone && s.logger.Writing? && s.logger.next <= |s.q.local|
    ensures var i, n := s.logger.next, |s.q.local|;
            && CanRun(s, Writes(n - i))
            && Exec(s, Writes(n - i)) ==
               s.(logger := Writing(n), drained := s.drained + Chunks(s.q.local[i..], s.fileOpen, []))
    decreases |s.q.local| - s.logger.next
  {
    hide Chunks;
    var i, n := s.logger.next, |s.q.local|;
    if i < n {
      var t := Apply(s, WriteOne(None));
      WritesRun(t);
      ChunksFrom(s.q.local, i, s.fileOpen);
      var chunk, rest := Write(s.q.local[i], s.fileOpen, None), Chunks(s.q.local[i + 1..], s.fileOpen, []);
      Associate(s.drained, [chunk], rest);
      hide Apply, Enabled;
      assert Writes(n - i) == [WriteOne(None)] + Writes(n - i - 1);
      OneStepMore(s, WriteOne(None), Writes(n - i - 1));
    } else {
      NoChunks(s.fileOpen);
      assert Writes(0) == [] && s.q.local[n..] == [] && s.drained + [] == s.drained;
    }
  }

  lemma {:induction false} ChunksFrom(bs: seq<string>, i: nat, isOpen: bool)
    requires i < |bs|
    ensures Chunks(bs[i..], isOpen, []) == [Write(bs[i], isOpen, None)] + Chunks(bs[i + 1..], isOpen, [])
  {
    assert bs[i..][0] == bs[i] && bs[i..][1..] == bs[i + 1..];
  }

  lemma NoChunks(isOpen: bool)
    ensures Chunks([], isOpen, []) == []
  {
  }

  lemma NothingRun(s: State)
    ensures CanRun(s, [])
  {
  }

  lemma {:induction false} TurnBegins(s: State)
    requires Inv(s) && s.dtor == Alive && s.running && s.logger == LoopHead
    ensures CanRun(s, [Loop, Wake(true), LockFile])
    ensures Exec(s, [Loop, Wake(true), LockFile]) ==
            s.(logger := Writing(0), q := Queues([], [], s.q.alternate + s.q.current))
  {
    var s1 := Apply(s, Loop);
    StepKeepsInv(s, Loop);
    WakeEmptiesQueues(s1, true);
    hide Inv;
    var s2 := Apply(s1, Wake(true));
    var s3 := Apply(s2, LockFile);
    hide Apply, Enabled;
    OneStepMore(s2, LockFile, []);
    OneStepMore(s1, Wake(true), [LockFile]);
    OneStepMore(s, Loop, [Wake(true), LockFile]);
  }

  /** A turn of the logger thread on its own: it loops, waits, wakes at its timeout, writes what it took and
      is back at its loop test with all queues empty and every buffer drained in order. */
  lemma {:induction false} TurnRuns(s: State)
    requires Inv(s) && s.dtor == Alive && s.running && s.logger == LoopHead
    ensures var bs := s.q.alternate + s.q.current;
            var steps := [Loop, Wake(true), LockFile] + (Writes(|bs|) + [FinishWrite]);
            && CanRun(s, steps)
            && Exec(s, steps) == s.(q := Queues([], [], []), drained := s.drained + Chunks(bs, s.fileOpen, []))
  {
    var bs := s.q.alternate + s.q.current;
    hide Inv, Chunks, CanRun, Exec;
    TurnBegins(s);
    var t := s.(logger := Writing(0), q := Queues([], [], bs));
    WritesRun(t);
    assert bs[0..] == bs;
    var u := Exec(t, Writes(|bs|));
    NothingRun(Apply(u, FinishWrite));
    OneStepMore(u, FinishWrite, []);
    assert [FinishWrite] + [] == [FinishWrite];
    assert Apply(u, FinishWrite) == s.(q := Queues([], [], []), drained := u.drained);
    hide Apply, Enabled;
    RunOn(t, Writes(|bs|), [FinishWrite]);
    RunOn(s, [Loop, Wake(true), LockFile], Writes(|bs|) + [FinishWrite]);
  }

  // ----- sizes

  lemma {:induction false} DenseTail(a: seq<string>, c: seq<string>)
    requires Dense(a + c)
    ensures Dense(c)
  {
    forall i | 0 <= i < |c| - 1 ensures |c[i]| + |c[i + 1]| > CAPACITY {
      var j := |a| + i;
      assert c[i] == (a + c)[j] && c[i + 1] == (a + c)[j + 1];
    }
  }

  /** n neighbouring dense buffers hold at least floor(n/2) times one capacity and a byte. */
  lemma {:induction false} DenseHoldsBytes(bs: seq<string>)
    requires Dense(bs)
    ensures |Concat(bs)| >= |bs| / 2 * 4097
    decreases |bs|
  {
    if |bs| >= 2 {
      var rest := bs[2..];
      assert bs[1..][1..] == rest;
      assert bs == bs[..2] + rest;
      DenseTail(bs[..2], rest);
      DenseHoldsBytes(rest);
      assert |bs[0]| + |bs[0 + 1]| > CAPACITY;
      assert Concat(bs) == bs[0] + (bs[1] + Concat(rest));
    }
  }

  /** Queued buffers are never mostly empty: in every reachable state the n buffers of alternate and
      current hold at least floor(n/2) * 4097 bytes, even when the overflow setting changes. */
  lemma {:induction false} QueuesAreDense(s: State, steps: seq<Step>)
    requires Initial(s) && CanRun(s, steps)
    ensures var q := Exec(s, steps).q;
            Dense(q.alternate + q.current) &&
            |Concat(q.alternate + q.current)| >= |q.alternate + q.current| / 2 * 4097
  {
    Conservation(s, steps);
    DenseHoldsBytes(Exec(s, steps).q.alternate + Exec(s, steps).q.current);
  }

  function Times(m: nat, k: nat): nat { m * k }

  ghost predicate IsMultiple(n: nat, k: nat) { exists m: nat :: n == Times(m, k) }

  lemma NoneIsMultiple(k: nat)
    ensures IsMultiple(0, k)
  {
    assert 0 == Times(0, k);
  }

  ghost predicate WholeSpills(s: State, k: nat) {
    s.overflow == k && |s.q.current| <= k && IsMultiple(|s.q.alternate|, k)
  }

  lemma {:induction false} AppendSpillsWhole(q: Queues, k: nat, record: string)
    requires k > 0 && |q.current| <= k && IsMultiple(|q.alternate|, k)
    ensures var q' := AppendTo(q, k, record); |q'.current| <= k && IsMultiple(|q'.alternate|, k)
  {
    if q.current != [] {
      SpillsExactly(q, k, record);
      hide AppendTo, Fits;
      var m: nat :| |q.alternate| == Times(m, k);
      assert |q.alternate| + k == Times(m + 1, k);
    }
  }

  lemma {:induction false} StepSpillsWhole(s: State, step: Step, k: nat)
    requires k > 0 && Inv(s) && WholeSpills(s, k) && Enabled(s, step) && (step.SetOverflow? ==> step.size == k)
    ensures WholeSpills(Apply(s, step), k)
  {
    NoneIsMultiple(k);
    hide IsMultiple;
    match step
    case Append(p) => AppendSpillsWhole(s.q, k, s.ready[p]);
    case Wake(timeout) => WakeEmptiesQueues(s, timeout);
    case _ =>
  }

  lemma {:induction false} RunSpillsWhole(s: State, steps: seq<Step>, k: nat)
    requires k > 0 && Inv(s) && WholeSpills(s, k) && CanRun(s, steps)
    requires forall i :: 0 <= i < |steps| && steps[i].SetOverflow? ==> steps[i].size == k
    ensures WholeSpills(Exec(s, steps), k)
    decreases |steps|
  {
    if steps != [] {
      StepKeepsInv(s, steps[0]);
      StepSpillsWhole(s, steps[0], k);
      hide Apply, Enabled, Inv, WholeSpills;
      RunSpillsWhole(Apply(s, steps[0]), steps[1..], k);
    }
  }

  /** With the overflow setting k, set at the start or as the first step, current is moved away k buffers at
      a time: in every state of every run it holds at most k, and alternate a multiple of k. */
  lemma {:induction false} SpillsWhole(s: State, steps: seq<Step>, k: nat)
    requires k > 0 && Initial(s) && CanRun(s, steps)
    requires s.overflow == k || (steps != [] && steps[0] == SetOverflow(k))
    requires forall i :: 0 <= i < |steps| && steps[i].SetOverflow? ==> steps[i].size == k
    ensures var q := Exec(s, steps).q; |q.current| <= k && IsMultiple(|q.alternate|, k)
  {
    NoneIsMultiple(k);
    hide IsMultiple;
    if s.overflow == k {
      RunSpillsWhole(s, steps, k);
    } else {
      StepKeepsInv(s, steps[0]);
      RunSpillsWhole(Apply(s, steps[0]), steps[1..], k);
    }
  }

  /** While the overflow setting stays at most k, current never holds more than k buffers. */
  lemma {:induction false} CurrentIsBounded(s: State, steps: seq<Step>, k: nat)
    requires CanRun(s, steps) && 0 < s.overflow <= k && |s.q.current| <= k
    requires forall i :: 0 <= i < |steps| && steps[i].SetOverflow? ==> steps[i].size <= k
    ensures |Exec(s, steps).q.current| <= k
    decreases |steps|
  {
    if steps != [] {
      CurrentIsBounded(Apply(s, steps[0]), steps[1..], k);
    }
  }

  // ----- a cycle of the logger thread

  /** A wake-up by timeout leaves both shared queues empty; a notified one leaves current as it is. */
  lemma WakeEmptiesQueues(s: State, timeout: bool)
    requires Inv(s) && Enabled(s, Wake(timeout))
    ensures Apply(s, Wake(timeout)).q ==
            if timeout then Queues([], [], s.q.alternate + s.q.current) else Queues(s.q.current, [], s.q.alternate)
  {
  }

  /** The logger thread has taken buffers and not yet cleared them. */
  predicate MidCycle(s: State) { s.logger == Parked || s.logger.Writing? }

  /** Steps of all threads, each taken while the logger thread is in its cycle. */
  predicate WithinCycle(s: State, steps: seq<Step>)
    requires CanRun(s, steps)
    decreases |steps|
  {
    steps == [] || (MidCycle(s) && WithinCycle(Apply(s, steps[0]), steps[1..]))
  }

  /** What is drained, or will be by the end of the cycle. */
  function Taken(s: State): string { Bytes(s.drained) + Concat(Unwritten(s)) }

  lemma {:induction false} WriteKeepsTaken(s: State, fault: Option<nat>)
    requires Inv(s) && Enabled(s, WriteOne(fault))
    ensures Taken(Apply(s, WriteOne(fault))) == Taken(s)
  {
    var i := s.logger.next;
    var chunk := Write(s.q.local[i], s.fileOpen, fault);
    BytesAppend(s.drained, [chunk]);
    assert Bytes([chunk]) == chunk.bytes + "" == chunk.bytes;
    assert s.q.local[i..] == [s.q.local[i]] + s.q.local[i + 1..];
    Associate(Bytes(s.drained), chunk.bytes, Concat(s.q.local[i + 1..]));
    hide Inv, Bytes;
  }

  lemma {:induction false} StepKeepsTaken(s: State, step: Step)
    requires Inv(s) && Enabled(s, step) && MidCycle(s) && !step.DtorFlush?
    ensures var t := Apply(s, step);
            && Taken(t) == Taken(s) && s.accepted <= t.accepted
            && (t.logger == LoopHead || MidCycle(t))
  {
    match step
    case WriteOne(fault) => WriteKeepsTaken(s, fault);
    case LockFile => assert s.q.local[0..] == s.q.local;
    case FinishWrite => assert Unwritten(s) == [];
    case _ =>
  }

  lemma GoneIsStill(s: State, steps: seq<Step>)
    requires CanRun(s, steps) && s.dtor == Gone
    ensures Exec(s, steps) == s
  {
  }

  lemma {:induction false} CycleKeepsTaken(s: State, steps: seq<Step>)
    requires Inv(s) && MidCycle(s) && CanRun(s, steps) && WithinCycle(s, steps) && Exec(s, steps).logger == LoopHead
    ensures var t := Exec(s, steps); Inv(t) && Taken(t) == Taken(s) && s.accepted <= t.accepted
    decreases |steps|
  {
    if steps != [] {
      var t := Apply(s, steps[0]);
      StepKeepsInv(s, steps[0]);
      if steps[0].DtorFlush? {
        GoneIsStill(t, steps[1..]);
      } else {
        StepKeepsTaken(s, steps[0]);
        hide Inv, Enabled, Apply, Taken;
        if t.logger == LoopHead {
          assert steps[1..] == [];
        } else {
          CycleKeepsTaken(t, steps[1..]);
        }
      }
    }
  }

  /** A whole cycle, from its wake-up to the loop test, interleaved with any steps of producers, settings
      and the destructor: nothing is left in local, and the queues hold exactly what current held at a
      notified wake-up, or nothing at a timeout, followed by the records appended since; all that was
      accepted before is drained. So after a timeout everything accepted before it is. */
  lemma {:induction false} CycleDrains(s: State, timeout: bool, steps: seq<Step>)
    requires Inv(s) && Enabled(s, Wake(timeout)) && CanRun(Apply(s, Wake(timeout)), steps)
    requires WithinCycle(Apply(s, Wake(timeout)), steps) && Exec(Apply(s, Wake(timeout)), steps).logger == LoopHead
    ensures var t, kept := Exec(Apply(s, Wake(timeout)), steps), if timeout then "" else Concat(s.q.current);
            && t.q.local == [] && s.accepted <= t.accepted && |kept| <= |s.accepted|
            && Concat(t.q.alternate) + Concat(t.q.current) == kept + t.accepted[|s.accepted|..]
            && Bytes(t.drained) == s.accepted[..|s.accepted| - |kept|]
  {
    hide Inv, Enabled, Apply, Exec, CanRun, WithinCycle, Taken, Concat;
    var u := Apply(s, Wake(timeout));
    var t := Exec(u, steps);
    WakeTakes(s, timeout);
    CycleKeepsTaken(u, steps);
    var kept, later := if timeout then "" else Concat(s.q.current), t.accepted[|s.accepted|..];
    QueuesAfter(t);
    assert t.accepted == s.accepted + later;
    SamePrefix(Taken(u), kept, later, Concat(t.q.alternate) + Concat(t.q.current));
  }

  lemma {:induction false} WakeTakes(s: State, timeout: bool)
    requires Inv(s) && Enabled(s, Wake(timeout))
    ensures var u := Apply(s, Wake(timeout));
            && Inv(u) && MidCycle(u) && u.accepted == s.accepted
            && s.accepted == Taken(u) + if timeout then "" else Concat(s.q.current)
  {
    var u := Apply(s, Wake(timeout));
    StepKeepsInv(s, Wake(timeout));
    WakeEmptiesQueues(s, timeout);
    hide Inv, Take, Taken;
    QueuesAfter(u);
    assert "" + "" == "" && "" + Concat(s.q.current) == Concat(s.q.current);
  }

  lemma {:induction false} QueuesAfter(s: State)
    requires Inv(s)
    ensures s.accepted == Taken(s) + (Concat(s.q.alternate) + Concat(s.q.current))
    ensures s.logger == LoopHead ==> s.q.local == [] && Taken(s) == Bytes(s.drained)
  {
    Associate(Bytes(s.drained), Concat(Unwritten(s)), Concat(s.q.alternate) + Concat(s.q.current));
    if s.logger == LoopHead {
      assert Unwritten(s) == [];
    }
  }

  lemma {:induction false} SamePrefix(taken: string, kept: string, later: string, queued: string)
    requires taken + queued == (taken + kept) + later
    ensures queued == kept + later && (taken + kept)[..|taken|] == taken
  {
    Associate(taken, kept, later);
    assert (taken + queued)[|taken|..] == queued && (taken + (kept + later))[|taken|..] == kept + later;
  }
}
