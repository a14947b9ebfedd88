/** storage.py: a JSON file that is rewritten through a temporary file and a rename, under one lock. The
    file system is two named cells; JSON text is the dictionary it stands for. */
module Storage {
  import opened Bytes

  // ---------------------------------------------------------------- sequential meaning

  type Dict<V> = map<string, V>

  datatype Op<V> = Get(key: string) | Set(key: string, value: V) | Delete(key: string) | Exists(key: string) | All

  datatype Response<V> = Value(value: Option<V>) | Done | Present(present: bool) | Everything(all: Dict<V>)

  /** The dictionary after one operation. */
  function Next<V>(d: Dict<V>, op: Op<V>): Dict<V> {
    match op
    case Set(k, v) => d[k := v]
    case Delete(k) => d - {k}
    case _ => d
  }

  function Respond<V>(d: Dict<V>, op: Op<V>): Response<V> {
    match op
    case Get(k) => Value(if k in d then Some(d[k]) else None)
    case Exists(k) => Present(k in d)
    case All => Everything(d)
    case _ => Done
  }

  /** The dictionary after a history of operations, one at a time. */
  function Replay<V>(h: seq<Op<V>>): Dict<V> {
    if h == [] then map[] else Next(Replay(h[..|h| - 1]), h[|h| - 1])
  }

  /** What the last write to a key left there. */
  function LastWritten<V>(h: seq<Op<V>>, key: string): Option<V> {
    if h == [] then None
    else
      match h[|h| - 1]
      case Set(k, v) => if k == key then Some(v) else LastWritten(h[..|h| - 1], key)
      case Delete(k) => if k == key then None else LastWritten(h[..|h| - 1], key)
      case _ => LastWritten(h[..|h| - 1], key)
  }

  /** A read returns the last write. */
  lemma {:induction false} ReadsLastWrite<V>(h: seq<Op<V>>, key: string)
    ensures Respond(Replay(h), Get(key)) == Value(LastWritten(h, key))
    ensures Respond(Replay(h), Exists(key)) == Present(LastWritten(h, key).Some?)
    ensures var all := Respond(Replay(h), All).all;
      LastWritten(h, key) == if key in all then Some(all[key]) else None
  {
    if h != [] {
      ReadsLastWrite(h[..|h| - 1], key);
    }
  }

  // ---------------------------------------------------------------- the store

  datatype File<V> = Missing | Partial | Whole(data: Dict<V>)

  /** `JSONStore` as one thread that holds the lock sees it. */
  class JSONStore<V(==)> {
    var file: File<V>
    var tmp: File<V>

    ghost predicate Valid()
      reads this
    {
      file.Whole?
    }

    /** `__init__`: an existing file is kept, whatever temporary file a crash has left. */
    constructor (file: File<V>, tmp: File<V>)
      requires !file.Partial?
      ensures Valid() && this.file == if file.Whole? then file else Whole(map[])
    {
      this.file := file;
      this.tmp := tmp;
      new;
      if this.file.Missing? {
        WriteRaw(map[]);
      }
    }

    method ReadRaw() returns (d: Dict<V>)
      requires Valid()
      ensures Whole(d) == file
    {
      d := file.data;
    }

    method WriteRaw(d: Dict<V>)
      modifies this
      ensures file == Whole(d) && tmp == Missing
    {
      tmp := Partial;
      tmp := Whole(d);
      file, tmp := tmp, Missing;
    }

    /** `get`, `set`, `delete`, `exists`, `all`: the body under the lock. */
    method Perform(op: Op<V>) returns (r: Response<V>)
      requires Valid()
      modifies this
      ensures Valid() && file == Whole(Next(old(file.data), op)) && r == Respond(old(file.data), op)
    {
      var data := ReadRaw();
      match op {
        case Get(k) => r := Value(if k in data then Some(data[k]) else None);
        case Exists(k) => r := Present(k in data);
        case All => r := Everything(data);
        case Set(k, v) =>
          data := data[k := v];
          WriteRaw(data);
          r := Done;
        case Delete(k) =>
          data := data - {k};
          WriteRaw(data);
          r := Done;
      }
    }
  }

  // ---------------------------------------------------------------- threads and crashes

  /** Where a thread is inside one operation. */
  datatype Phase<V> =
    | Waiting
    | Entered
    | HasRead(changed: Dict<V>)
    | Opened(changed: Dict<V>)
    | Written(changed: Dict<V>)
    | Finished(response: Response<V>)

  /** `call` is the number of the call, `invokedAt` counts the operations that had taken effect before it. */
  datatype Thread<V> = Thread(op: Op<V>, phase: Phase<V>, invokedAt: nat, call: nat)

  /** An operation that returned; it took effect as number `tookEffectAt` of the history. */
  datatype Completion<V> = Completion(op: Op<V>, response: Response<V>, invokedAt: nat, tookEffectAt: nat,
                                      returnedAt: nat, call: nat)

  /** `calls` lists the operations in the order in which they were called, `history` in the order in which
      they took effect: a read when it read the file, a write when it renamed. `origin` gives the call of
      each entry of the history. */
  datatype System<V> = System(file: File<V>, tmp: File<V>, holder: Option<nat>, threads: map<nat, Thread<V>>,
                              calls: seq<Op<V>>, history: seq<Op<V>>, origin: seq<nat>, completed: seq<Completion<V>>)

  datatype Event<V> =
    | Invoke(t: nat, op: Op<V>)
    | Acquire(t: nat)
    | Read(t: nat)
    | Open(t: nat)
    | Write(t: nat)
    | Rename(t: nat)
    | Release(t: nat)
    | Fail(t: nat)
    | Crash

  predicate Writes<V>(op: Op<V>) {
    op.Set? || op.Delete?
  }

  /** What each step needs: the program counter, and for Acquire a free lock. An I/O error may end an
      operation at any point where it holds the lock and has not taken effect. */
  predicate Enabled<V>(s: System<V>, e: Event<V>) {
    match e
    case Invoke(t, _) => t !in s.threads
    case Acquire(t) => t in s.threads && s.threads[t].phase.Waiting? && s.holder.None?
    case Read(t) => t in s.threads && s.threads[t].phase.Entered? && s.file.Whole?
    case Open(t) => t in s.threads && s.threads[t].phase.HasRead?
    case Write(t) => t in s.threads && s.threads[t].phase.Opened?
    case Rename(t) => t in s.threads && s.threads[t].phase.Written?
    case Release(t) => t in s.threads && s.threads[t].phase.Finished?
    case Fail(t) => t in s.threads && !s.threads[t].phase.Waiting? && !s.threads[t].phase.Finished?
    case Crash => true
  }

  function Move<V>(s: System<V>, t: nat, phase: Phase<V>): map<nat, Thread<V>>
    requires t in s.threads
  {
    s.threads[t := s.threads[t].(phase := phase)]
  }

  /** The operation of thread t becomes the next entry of the history. */
  function TakeEffect<V>(s: System<V>, t: nat, response: Response<V>): System<V>
    requires t in s.threads
  {
    s.(threads := Move(s, t, Finished(response)), history := s.history + [s.threads[t].op],
       origin := s.origin + [s.threads[t].call])
  }

  /** One step; a rename publishes whatever the temporary file holds. */
  function Step<V>(s: System<V>, e: Event<V>): System<V>
    requires Enabled(s, e)
  {
    match e
    case Invoke(t, op) =>
      s.(threads := s.threads[t := Thread(op, Waiting, |s.history|, |s.calls|)], calls := s.calls + [op])
    case Acquire(t) => s.(holder := Some(t), threads := Move(s, t, Entered))
    case Read(t) =>
      var op := s.threads[t].op;
      if Writes(op) then s.(threads := Move(s, t, HasRead(Next(s.file.data, op))))
      else TakeEffect(s, t, Respond(s.file.data, op))
    case Open(t) => s.(tmp := Partial, threads := Move(s, t, Opened(s.threads[t].phase.changed)))
    case Write(t) =>
      s.(tmp := Whole(s.threads[t].phase.changed), threads := Move(s, t, Written(s.threads[t].phase.changed)))
    case Rename(t) =>
      TakeEffect(s, t, Done).(file := s.tmp, tmp := Missing)
    case Release(t) =>
      var th := s.threads[t];
      var n := |s.history|;
      s.(holder := None, threads := s.threads - {t},
         completed := s.completed +
           [Completion(th.op, th.phase.response, th.invokedAt, if n > 0 then n - 1 else 0, n, th.call)])
    case Fail(t) => s.(holder := None, threads := s.threads - {t})
    case Crash => s.(holder := None, threads := map[])
  }

  /** The state after a list of events from a fresh store; None when a step was not enabled. */
  function Run<V>(events: seq<Event<V>>): Option<System<V>> {
    if events == [] then Some(System(Whole(map[]), Missing, None, map[], [], [], [], []))
    else
      match Run(events[..|events| - 1])
      case None => None
      case Some(s) => if Enabled(s, events[|events| - 1]) then Some(Step(s, events[|events| - 1])) else None
  }

  // ---------------------------------------------------------------- invariant

  /** A thread past Waiting holds the lock, and what it has read is what the file still says. */
  ghost predicate ThreadOk<V>(s: System<V>, t: nat, th: Thread<V>) {
    && th.invokedAt <= |s.history|
    && (!th.phase.Waiting? ==> s.holder == Some(t))
    && match th.phase
       case Waiting => true
       case Entered => true
       case HasRead(d) => Writes(th.op) && d == Next(Replay(s.history), th.op)
       case Opened(d) => Writes(th.op) && d == Next(Replay(s.history), th.op)
       case Written(d) => Writes(th.op) && d == Next(Replay(s.history), th.op) && s.tmp == Whole(d)
       case Finished(r) =>
         && Effective(s.history, th.op, r, th.invokedAt, |s.history| - 1)
         && forall i :: 0 <= i < |s.completed| ==> s.completed[i].tookEffectAt < |s.history| - 1
  }

  /** The operation is entry number n of the history, after its call, with the sequential response. */
  ghost predicate Effective<V>(h: seq<Op<V>>, op: Op<V>, r: Response<V>, invokedAt: nat, n: int) {
    invokedAt <= n < |h| && h[n] == op && r == Respond(Replay(h[..n]), op)
  }

  ghost predicate CompletionOk<V>(h: seq<Op<V>>, c: Completion<V>) {
    Effective(h, c.op, c.response, c.invokedAt, c.tookEffectAt) && c.tookEffectAt < c.returnedAt <= |h|
  }

  ghost predicate ThreadsOk<V>(s: System<V>) {
    && (forall t :: t in s.threads ==> ThreadOk(s, t, s.threads[t]))
    && (s.holder.Some? ==> s.holder.value in s.threads && !s.threads[s.holder.value].phase.Waiting?)
  }

  ghost predicate CompletedOk<V>(h: seq<Op<V>>, completed: seq<Completion<V>>) {
    && (forall i :: 0 <= i < |completed| ==> CompletionOk(h, completed[i]))
    && (forall i, j :: 0 <= i < j < |completed| ==> completed[i].tookEffectAt < completed[j].tookEffectAt)
  }

  ghost predicate Inv<V>(s: System<V>) {
    s.file == Whole(Replay(s.history)) && ThreadsOk(s) && CompletedOk(s.history, s.completed)
  }

  lemma Extend<V>(h: seq<Op<V>>, op: Op<V>)
    ensures Replay(h + [op]) == Next(Replay(h), op)
    ensures forall n :: 0 <= n <= |h| ==> (h + [op])[..n] == h[..n]
  {
    assert (h + [op])[..|h|] == h;
  }

  /** Whatever takes effect later, what has completed stays as it was. */
  lemma StillCompleted<V>(h: seq<Op<V>>, op: Op<V>, completed: seq<Completion<V>>)
    requires CompletedOk(h, completed)
    ensures CompletedOk(h + [op], completed)
    ensures forall i :: 0 <= i < |completed| ==> completed[i].tookEffectAt < |h|
  {
    Extend(h, op);
    assert forall i :: 0 <= i < |completed| ==> CompletionOk(h, completed[i]);
  }

  /** While one thread holds the lock the others wait, and its steps do not disturb them. */
  lemma OthersWait<V>(s: System<V>, s': System<V>, t: nat)
    requires ThreadsOk(s) && s.holder == Some(t) && |s.history| <= |s'.history|
    requires forall u :: u in s'.threads && u != t ==> u in s.threads && s'.threads[u] == s.threads[u]
    requires t in s'.threads ==> ThreadOk(s', t, s'.threads[t])
    requires s'.holder == if t in s'.threads then Some(t) else None
    requires t in s'.threads ==> !s'.threads[t].phase.Waiting?
    ensures ThreadsOk(s')
  {
    forall u | u in s'.threads ensures ThreadOk(s', u, s'.threads[u]) {
      if u != t {
        assert ThreadOk(s, u, s.threads[u]);
      }
    }
  }

  /** An operation that takes effect with its sequential response extends the history and nothing else. */
  lemma EffectKeeps<V>(s: System<V>, t: nat, response: Response<V>)
    requires ThreadsOk(s) && CompletedOk(s.history, s.completed)
    requires t in s.threads && !s.threads[t].phase.Waiting?
    requires response == Respond(Replay(s.history), s.threads[t].op)
    ensures var s' := TakeEffect(s, t, response);
      ThreadsOk(s') && CompletedOk(s'.history, s'.completed) &&
      Replay(s'.history) == Next(Replay(s.history), s.threads[t].op)
  {
    assert ThreadOk(s, t, s.threads[t]);
    Extend(s.history, s.threads[t].op);
    StillCompleted(s.history, s.threads[t].op, s.completed);
    OthersWait(s, TakeEffect(s, t, response), t);
  }

  lemma ReadKeeps<V>(s: System<V>, t: nat)
    requires Inv(s) && Enabled(s, Read(t))
    ensures Inv(Step(s, Read(t)))
  {
    assert ThreadOk(s, t, s.threads[t]);
    var op := s.threads[t].op;
    if Writes(op) {
      OthersWait(s, Step(s, Read(t)), t);
    } else {
      EffectKeeps(s, t, Respond(s.file.data, op));
    }
  }

  lemma OpenWriteKeeps<V>(s: System<V>, e: Event<V>)
    requires Inv(s) && Enabled(s, e) && (e.Open? || e.Write?)
    ensures Inv(Step(s, e))
  {
    assert ThreadOk(s, e.t, s.threads[e.t]);
    OthersWait(s, Step(s, e), e.t);
  }

  lemma RenameKeeps<V>(s: System<V>, t: nat)
    requires Inv(s) && Enabled(s, Rename(t))
    ensures Inv(Step(s, Rename(t)))
    ensures Step(s, Rename(t)).file == Whole(Next(Replay(s.history), s.threads[t].op))
  {
    assert ThreadOk(s, t, s.threads[t]);
    EffectKeeps(s, t, Done);
    NoThreadReads(TakeEffect(s, t, Done), t, s.tmp);
  }

  /** Once the thread in the lock has finished, the files may change: no thread relies on them. */
  lemma NoThreadReads<V>(s: System<V>, t: nat, file: File<V>)
    requires ThreadsOk(s) && t in s.threads && s.threads[t].phase.Finished?
    ensures ThreadsOk(s.(file := file, tmp := Missing))
  {
    var s' := s.(file := file, tmp := Missing);
    assert ThreadOk(s, t, s.threads[t]);
    forall u | u in s'.threads ensures ThreadOk(s', u, s'.threads[u]) {
      assert ThreadOk(s, u, s.threads[u]);
    }
  }

  lemma ReleaseKeeps<V>(s: System<V>, t: nat)
    requires Inv(s) && Enabled(s, Release(t))
    ensures Inv(Step(s, Release(t)))
  {
    assert ThreadOk(s, t, s.threads[t]);
    OthersWait(s, Step(s, Release(t)), t);
  }

  lemma OutsideKeeps<V>(s: System<V>, e: Event<V>)
    requires Inv(s) && Enabled(s, e) && (e.Invoke? || e.Acquire? || e.Fail? || e.Crash?)
    ensures Inv(Step(s, e))
  {
    if e.Fail? {
      assert ThreadOk(s, e.t, s.threads[e.t]);
      OthersWait(s, Step(s, e), e.t);
    }
  }

  lemma StepKeeps<V>(s: System<V>, e: Event<V>)
    requires Inv(s) && Enabled(s, e)
    ensures Inv(Step(s, e))
  {
    match e {
      case Read(t) => ReadKeeps(s, t);
      case Open(_) => OpenWriteKeeps(s, e);
      case Write(_) => OpenWriteKeeps(s, e);
      case Rename(t) => RenameKeeps(s, t);
      case Release(t) => ReleaseKeeps(s, t);
      case _ => OutsideKeeps(s, e);
    }
  }

  /** Every interleaving, with failures and crashes anywhere, keeps the invariant. */
  lemma {:induction false} RunKeeps<V>(events: seq<Event<V>>)
    requires Run(events).Some?
    ensures Inv(Run(events).value)
  {
    if events != [] {
      var n := |events| - 1;
      RunKeeps(events[..n]);
      StepKeeps(Run(events[..n]).value, events[n]);
    }
  }

  // ---------------------------------------------------------------- nothing takes effect uncalled

  /** Entries of the history are called operations, each call used at most once. */
  ghost predicate OriginsOk<V>(s: System<V>) {
    && |s.origin| == |s.history|
    && (forall n :: 0 <= n < |s.origin| ==> s.origin[n] < |s.calls| && s.history[n] == s.calls[s.origin[n]])
    && (forall m, n :: 0 <= m < n < |s.origin| ==> s.origin[m] != s.origin[n])
    && (forall i :: 0 <= i < |s.completed| ==>
          s.completed[i].tookEffectAt < |s.origin| && s.origin[s.completed[i].tookEffectAt] == s.completed[i].call)
  }

  /** A thread works on a call of its own, which is in the history only once the thread has finished. */
  ghost predicate CallOk<V>(s: System<V>, th: Thread<V>) {
    && th.call < |s.calls| && s.calls[th.call] == th.op
    && (!th.phase.Finished? ==> th.call !in s.origin)
    && (th.phase.Finished? ==> s.origin != [] && s.origin[|s.origin| - 1] == th.call)
  }

  ghost predicate CallsOk<V>(s: System<V>) {
    && (forall t :: t in s.threads ==> CallOk(s, s.threads[t]))
    && (forall t, u :: t in s.threads && u in s.threads && t != u ==> s.threads[t].call != s.threads[u].call)
  }

  lemma TakeEffectTraced<V>(s: System<V>, t: nat, response: Response<V>)
    requires OriginsOk(s) && CallsOk(s) && t in s.threads && !s.threads[t].phase.Finished?
    requires forall u :: u in s.threads && u != t ==> s.threads[u].phase.Waiting?
    ensures OriginsOk(TakeEffect(s, t, response)) && CallsOk(TakeEffect(s, t, response))
  {
    var s' := TakeEffect(s, t, response);
    assert CallOk(s, s.threads[t]);
    forall u | u in s'.threads ensures CallOk(s', s'.threads[u]) {
      if u != t {
        assert CallOk(s, s.threads[u]);
      }
    }
  }

  lemma InvokeTraced<V>(s: System<V>, t: nat, op: Op<V>)
    requires OriginsOk(s) && CallsOk(s) && t !in s.threads
    ensures OriginsOk(Step(s, Invoke(t, op))) && CallsOk(Step(s, Invoke(t, op)))
  {
    var s' := Step(s, Invoke(t, op));
    forall u | u in s'.threads ensures CallOk(s', s'.threads[u]) {
      if u != t {
        assert CallOk(s, s.threads[u]);
      }
    }
  }

  ghost predicate SameCall<V>(th: Thread<V>, th': Thread<V>) {
    th'.call == th.call && th'.op == th.op && (th'.phase.Finished? <==> th.phase.Finished?)
  }

  /** The steps that neither call nor take effect keep every thread's call. */
  lemma OtherTraced<V>(s: System<V>, s': System<V>)
    requires CallsOk(s) && s'.calls == s.calls && s'.origin == s.origin
    requires forall u :: u in s'.threads ==> u in s.threads && SameCall(s.threads[u], s'.threads[u])
    ensures CallsOk(s')
  {
    forall u | u in s'.threads ensures CallOk(s', s'.threads[u]) {
      assert CallOk(s, s.threads[u]);
    }
  }

  lemma ReleaseTraced<V>(s: System<V>, t: nat)
    requires Inv(s) && OriginsOk(s) && CallsOk(s) && Enabled(s, Release(t))
    ensures OriginsOk(Step(s, Release(t))) && CallsOk(Step(s, Release(t)))
  {
    assert ThreadOk(s, t, s.threads[t]) && CallOk(s, s.threads[t]);
    OtherTraced(s, Step(s, Release(t)));
  }

  lemma HolderAlone<V>(s: System<V>, t: nat)
    requires Inv(s) && t in s.threads && !s.threads[t].phase.Waiting?
    ensures forall u :: u in s.threads && u != t ==> s.threads[u].phase.Waiting?
  {
    forall u | u in s.threads && u != t ensures s.threads[u].phase.Waiting? {
      assert ThreadOk(s, t, s.threads[t]) && ThreadOk(s, u, s.threads[u]);
    }
  }

  lemma ReadTraced<V>(s: System<V>, t: nat)
    requires Inv(s) && OriginsOk(s) && CallsOk(s) && Enabled(s, Read(t))
    ensures OriginsOk(Step(s, Read(t))) && CallsOk(Step(s, Read(t)))
  {
    if Writes(s.threads[t].op) {
      OtherTraced(s, Step(s, Read(t)));
    } else {
      HolderAlone(s, t);
      TakeEffectTraced(s, t, Respond(s.file.data, s.threads[t].op));
    }
  }

  lemma RenameTraced<V>(s: System<V>, t: nat)
    requires Inv(s) && OriginsOk(s) && CallsOk(s) && Enabled(s, Rename(t))
    ensures OriginsOk(Step(s, Rename(t))) && CallsOk(Step(s, Rename(t)))
  {
    HolderAlone(s, t);
    TakeEffectTraced(s, t, Done);
    OtherTraced(TakeEffect(s, t, Done), Step(s, Rename(t)));
  }

  lemma QuietTraced<V>(s: System<V>, e: Event<V>)
    requires OriginsOk(s) && CallsOk(s) && Enabled(s, e)
    requires e.Acquire? || e.Open? || e.Write? || e.Fail? || e.Crash?
    ensures OriginsOk(Step(s, e)) && CallsOk(Step(s, e))
  {
    OtherTraced(s, Step(s, e));
  }

  lemma StepTraced<V>(s: System<V>, e: Event<V>)
    requires Inv(s) && OriginsOk(s) && CallsOk(s) && Enabled(s, e)
    ensures OriginsOk(Step(s, e)) && CallsOk(Step(s, e))
  {
    match e {
      case Invoke(t, op) => InvokeTraced(s, t, op);
      case Read(t) => ReadTraced(s, t);
      case Rename(t) => RenameTraced(s, t);
      case Release(t) => ReleaseTraced(s, t);
      case _ => QuietTraced(s, e);
    }
  }

  /** The operations of the Invoke events, in order. */
  function Invoked<V>(events: seq<Event<V>>): seq<Op<V>> {
    if events == [] then []
    else
      var before := Invoked(events[..|events| - 1]);
      if events[|events| - 1].Invoke? then before + [events[|events| - 1].op] else before
  }

  lemma {:induction false} RunTraced<V>(events: seq<Event<V>>)
    requires Run(events).Some?
    ensures OriginsOk(Run(events).value) && CallsOk(Run(events).value) && Run(events).value.calls == Invoked(events)
  {
    if events != [] {
      var n := |events| - 1;
      RunTraced(events[..n]);
      RunKeeps(events[..n]);
      StepTraced(Run(events[..n]).value, events[n]);
    }
  }

  /** Each entry of h is the operation of a different call. */
  ghost predicate Traced<V>(h: seq<Op<V>>, origin: seq<nat>, calls: seq<Op<V>>) {
    && |origin| == |h| && (forall n :: 0 <= n < |h| ==> origin[n] < |calls| && h[n] == calls[origin[n]])
    && (forall m, n :: 0 <= m < n < |h| ==> origin[m] != origin[n])
  }

  /** Linearizability: the operations that returned took effect one at a time, each between its call and
      its return, and each response is that of the sequential dictionary. An operation that returned
      before another was called took effect before it. Nothing else takes effect: each entry of the history is
      a called operation, no call takes effect twice, and a call that returned took effect as itself. */
  lemma Linearizable<V>(events: seq<Event<V>>, i: nat, j: nat)
    requires Run(events).Some? && i < |Run(events).value.completed| && j < |Run(events).value.completed|
    ensures var s := Run(events).value;
      var (a, b) := (s.completed[i], s.completed[j]);
      && Effective(s.history, a.op, a.response, a.invokedAt, a.tookEffectAt) && a.tookEffectAt < a.returnedAt
      && (i < j ==> a.tookEffectAt < b.tookEffectAt)
      && (a.returnedAt <= b.invokedAt ==> a.tookEffectAt < b.tookEffectAt)
    ensures var s := Run(events).value;
      Traced(s.history, s.origin, Invoked(events)) && s.origin[s.completed[i].tookEffectAt] == s.completed[i].call
  {
    RunKeeps(events);
    RunTraced(events);
    var s := Run(events).value;
    assert CompletionOk(s.history, s.completed[i]) && CompletionOk(s.history, s.completed[j]);
  }

  /** No lost update: what a completed read of a key returned is the last write to it before. */
  lemma NoLostUpdate<V>(events: seq<Event<V>>, i: nat)
    requires Run(events).Some? && i < |Run(events).value.completed| && Run(events).value.completed[i].op.Get?
    ensures var s := Run(events).value;
      var c := s.completed[i];
      c.tookEffectAt < |s.history| &&
      c.response == Value(LastWritten(s.history[..c.tookEffectAt], c.op.key))
  {
    Linearizable(events, i, i);
    var c := Run(events).value.completed[i];
    ReadsLastWrite(Run(events).value.history[..c.tookEffectAt], c.op.key);
  }

  /** Crash safety: at any point of any run the file holds a whole dictionary, a crash touches neither file,
      and one more step changes it only by one whole operation. */
  lemma CrashSafe<V>(events: seq<Event<V>>, e: Event<V>)
    requires Run(events).Some? && Enabled(Run(events).value, e)
    ensures var s := Run(events).value;
      && s.file == Whole(Replay(s.history))
      && Step(s, Crash).file == s.file && Step(s, Crash).tmp == s.tmp && Inv(Step(s, Crash))
      && (Step(s, e).file == s.file ||
          (e.Rename? && Step(s, e).file == Whole(Next(Replay(s.history), s.threads[e.t].op))))
  {
    RunKeeps(events);
    StepKeeps(Run(events).value, Crash);
    if e.Rename? {
      RenameKeeps(Run(events).value, e.t);
    }
  }

  /** Progress: a thread that holds the lock can always take its next step, and frees the lock in at most
      five of its own steps. */
  function StepsLeft<V>(phase: Phase<V>): nat {
    match phase
    case Waiting => 6
    case Entered => 5
    case HasRead(_) => 4
    case Opened(_) => 3
    case Written(_) => 2
    case Finished(_) => 1
  }

  function NextEvent<V>(t: nat, phase: Phase<V>): Event<V> {
    match phase
    case Waiting => Acquire(t)
    case Entered => Read(t)
    case HasRead(_) => Open(t)
    case Opened(_) => Write(t)
    case Written(_) => Rename(t)
    case Finished(_) => Release(t)
  }

  lemma LockIsReleased<V>(events: seq<Event<V>>, t: nat)
    requires Run(events).Some? && Run(events).value.holder == Some(t)
    ensures var s := Run(events).value;
      t in s.threads &&
      var e := NextEvent(t, s.threads[t].phase);
      Enabled(s, e) &&
      var s' := Step(s, e);
      s'.holder.None? || (t in s'.threads && StepsLeft(s'.threads[t].phase) < StepsLeft(s.threads[t].phase))
  {
    RunKeeps(events);
  }
}
