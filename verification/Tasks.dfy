/** Futures, tasks and wake-up entries as values: one poll, one scan of the task queue, one
    check of the wake-up list. */
module Tasks {
  import opened Words

  datatype Option<T> = None | Some(value: T)

  // ---------------------------------------------------------------- futures

  /** The futures of the kernel. `target` is the tick a sleep waits for; `written` counts the
      bytes of `data` already handed to the serial port. */
  datatype Future =
    | Sleep(target: nat)
    | SerialWrite(data: seq<byte>, written: nat)
    | RtcRead

  /** A task owns its future and a waker, whose reference count is kept; the waker is absent
      when there was no memory for it. */
  datatype Task = Task(id: nat, future: Future, completed: bool, waker: Option<nat>)

  /** What a poll sees: the tick counter, the transmitter status, the outcome of a clock read. */
  datatype Env = Env(tick: nat, transmitEmpty: bool, clockRead: bool)

  datatype Polled = Polled(task: Task, ready: bool, out: seq<byte>)

  /** The target tick of a sleep created at `now`, in 32 bits. */
  function SleepTarget(now: nat, ticks: nat): nat {
    Add32(now, ticks)
  }

  function PollFuture(future: Future, env: Env): (Future, bool, seq<byte>) {
    match future
    case Sleep(target) => (future, target <= env.tick, [])
    case SerialWrite(data, written) =>
      if |data| <= written then (future, true, [])
      else if env.transmitEmpty then (SerialWrite(data, written + 1), written + 1 == |data|, [data[written]])
      else (future, false, [])
    case RtcRead => (future, env.clockRead, [])
  }

  /** `poll_task`: a completed future is not polled again. */
  function PollTask(t: Task, env: Env): Polled {
    if t.completed then Polled(t, true, [])
    else
      var (future, ready, out) := PollFuture(t.future, env);
      Polled(t.(future := future, completed := ready), ready, out)
  }

  /** What one poll does, for each kind of future: a completed task is left alone; otherwise a sleep
      and a clock read emit nothing and keep their future, and a serial write emits its next byte
      exactly when it has one and the transmitter is empty, remembers that, and is ready exactly
      when all bytes are out. The task's completion flag is the verdict; nothing else changes. */
  lemma PollAdvances(t: Task, env: Env)
    ensures var p := PollTask(t, env);
            && p.task.id == t.id && p.task.waker == t.waker && p.task.completed == p.ready
            && (t.completed ==> p.task == t && p.out == [])
            && (!t.completed ==>
                  match t.future {
                    case Sleep(target) => p.out == [] && p.task.future == t.future && (p.ready <==> target <= env.tick)
                    case RtcRead => p.out == [] && p.task.future == t.future && (p.ready <==> env.clockRead)
                    case SerialWrite(data, written) =>
                      written <= |data| ==>
                        && |p.out| == (if written < |data| && env.transmitEmpty then 1 else 0)
                        && p.out == data[written..written + |p.out|]
                        && p.task.future == SerialWrite(data, written + |p.out|)
                        && (p.ready <==> written + |p.out| == |data|)
                  })
  {
  }

  // ---------------------------------------------------------------- what removal releases

  datatype Event = Cleanup(id: nat) | FreeWaker(id: nat) | FreeFuture(id: nat) | FreeTask(id: nat)

  /** The cleanup function of each kind of future; the clock future's cleanup frees the future. */
  function CleanupEvents(t: Task): seq<Event> {
    [Cleanup(t.id)] + if t.future.RtcRead? then [FreeFuture(t.id)] else []
  }

  /** Everything released when a completed task leaves the queue. */
  function RemovalEvents(t: Task): seq<Event> {
    CleanupEvents(t) +
    (if t.waker == Some(1) then [FreeWaker(t.id)] else []) +
    [FreeFuture(t.id), FreeTask(t.id)]
  }

  /** A removed task's future is released exactly once if and only if it is not a clock future:
      that one is released twice. Its cleanup runs once, its waker (if any) and the task itself
      are released once, in every case. */
  lemma FutureFreedOnceUnlessClock(t: Task)
    requires t.waker == None || t.waker == Some(1)
    ensures var released := multiset(RemovalEvents(t));
            && (released[FreeFuture(t.id)] == 1 <==> !t.future.RtcRead?)
            && (t.future.RtcRead? ==> released[FreeFuture(t.id)] == 2)
            && released[Cleanup(t.id)] == 1 && released[FreeTask(t.id)] == 1
            && released[FreeWaker(t.id)] == (if t.waker.Some? then 1 else 0)
  {
  }

  /** The cleanup runs first and the task is released last. Nothing but the task is released or
      touched after the future, if and only if it is not a clock future: that one is released in its
      own cleanup, before its waker is looked up and before it is released again. */
  lemma ReleasesInOrder(t: Task)
    ensures var e := RemovalEvents(t);
            && |e| >= 3 && e[0] == Cleanup(t.id) && e[|e| - 1] == FreeTask(t.id) && e[|e| - 2] == FreeFuture(t.id)
            && (forall i :: 0 <= i < |e| - 1 ==> e[i] != FreeTask(t.id))
            && (!t.future.RtcRead? ==>
                  forall i, j :: 0 <= i < j < |e| && e[j] == FreeWaker(t.id) ==> e[i] == Cleanup(t.id))
            && ((forall i, j :: 0 <= i < j < |e| && e[i] == FreeFuture(t.id) ==> e[j] == FreeTask(t.id))
                <==> !t.future.RtcRead?)
  {
    if t.future.RtcRead? {
      var e := RemovalEvents(t);
      assert e[1] == FreeFuture(t.id) && e[2] != FreeTask(t.id);
    }
  }

  // ---------------------------------------------------------------- one scan of the queue

  /** The tasks left after a scan, the bytes written and the releases made, in order. */
  datatype Scanned = Scanned(kept: seq<Task>, out: seq<byte>, log: seq<Event>)

  /** Poll the tasks in order, the i-th under the i-th environment. */
  function Scan(tasks: seq<Task>, envs: seq<Env>): (r: Scanned)
    requires |tasks| == |envs|
    ensures |r.kept| <= |tasks|
  {
    if tasks == [] then Scanned([], [], [])
    else
      var n := |tasks| - 1;
      var r := Scan(tasks[..n], envs[..n]);
      ScanOne(r, tasks[n], envs[n])
  }

  function ScanOne(r: Scanned, t: Task, env: Env): Scanned {
    var p := PollTask(t, env);
    if p.ready then Scanned(r.kept, r.out + p.out, r.log + RemovalEvents(p.task))
    else Scanned(r.kept + [p.task], r.out + p.out, r.log)
  }

  /** The positions of the tasks that stay, in increasing order. */
  function Staying(tasks: seq<Task>, envs: seq<Env>): (idx: seq<nat>)
    requires |tasks| == |envs|
    ensures forall j :: 0 <= j < |idx| ==> idx[j] < |tasks| && !PollTask(tasks[idx[j]], envs[idx[j]]).ready
    ensures forall j, k :: 0 <= j < k < |idx| ==> idx[j] < idx[k]
    ensures forall i: nat :: i < |tasks| && !PollTask(tasks[i], envs[i]).ready ==> i in idx
  {
    if tasks == [] then []
    else
      var n := |tasks| - 1;
      Staying(tasks[..n], envs[..n]) + if PollTask(tasks[n], envs[n]).ready then [] else [n]
  }

  /** A scan is an order-preserving filter: exactly the tasks whose poll is not ready stay, each
      as its poll left it, in their old order. */
  lemma {:induction false} ScanIsFilter(tasks: seq<Task>, envs: seq<Env>)
    requires |tasks| == |envs|
    ensures var idx := Staying(tasks, envs);
            var kept := Scan(tasks, envs).kept;
            |kept| == |idx| &&
            forall j :: 0 <= j < |idx| ==> kept[j] == PollTask(tasks[idx[j]], envs[idx[j]]).task
    decreases |tasks|
  {
    hide PollTask;
    if tasks != [] {
      var n := |tasks| - 1;
      ScanIsFilter(tasks[..n], envs[..n]);
    }
  }

  lemma NothingScanned()
    ensures Scan([], []) == Scanned([], [], [])
  {
  }

  lemma ScanExtends(tasks: seq<Task>, envs: seq<Env>, t: Task, env: Env)
    requires |tasks| == |envs|
    ensures Scan(tasks + [t], envs + [env]) == ScanOne(Scan(tasks, envs), t, env)
  {
  }

  /** What a scan of one task leaves, writes and releases. */
  lemma ScanOfOne(t: Task, env: Env)
    ensures var p := PollTask(t, env);
            && Scan([t], [env]).kept == (if p.ready then [] else [p.task])
            && Scan([t], [env]).out == p.out
            && Scan([t], [env]).log == (if p.ready then RemovalEvents(p.task) else [])
  {
    hide PollTask, RemovalEvents;
    assert [t][..0] == [] && [env][..0] == [];
    NothingScanned();
  }

  /** A scan of a longer queue does the same for each part of it, one after the other: tasks kept,
      bytes written and releases made are those of the first part, then those of the second. */
  lemma {:induction false} ScanInOrder(a: seq<Task>, b: seq<Task>, envs: seq<Env>, envs': seq<Env>)
    requires |a| == |envs| && |b| == |envs'|
    ensures var r, r1, r2 := Scan(a + b, envs + envs'), Scan(a, envs), Scan(b, envs');
            r.kept == r1.kept + r2.kept && r.out == r1.out + r2.out && r.log == r1.log + r2.log
    decreases |b|
  {
    hide Scan, ScanOne;
    NothingScanned();
    if b == [] {
      assert a + b == a && envs + envs' == envs;
    } else {
      var n := |b| - 1;
      var b', e' := b[..n], envs'[..n];
      ScanInOrder(a, b', envs, e');
      ScanExtends(a + b', envs + e', b[n], envs'[n]);
      ScanExtends(b', e', b[n], envs'[n]);
      assert a + b' + [b[n]] == a + b && envs + e' + [envs'[n]] == envs + envs';
      assert b' + [b[n]] == b && e' + [envs'[n]] == envs';
      OneMoreInOrder(Scan(a + b', envs + e'), Scan(a, envs), Scan(b', e'), b[n], envs'[n]);
    }
  }

  lemma OneMoreInOrder(r: Scanned, r1: Scanned, r2: Scanned, t: Task, env: Env)
    requires r.kept == r1.kept + r2.kept && r.out == r1.out + r2.out && r.log == r1.log + r2.log
    ensures var s, s2 := ScanOne(r, t, env), ScanOne(r2, t, env);
            s.kept == r1.kept + s2.kept && s.out == r1.out + s2.out && s.log == r1.log + s2.log
  {
    hide PollTask, RemovalEvents;
    var p := PollTask(t, env);
    assert r1.kept + r2.kept + [p.task] == r1.kept + (r2.kept + [p.task]);
    assert r1.out + r2.out + p.out == r1.out + (r2.out + p.out);
    assert r1.log + r2.log + RemovalEvents(p.task) == r1.log + (r2.log + RemovalEvents(p.task));
  }

  // ---------------------------------------------------------------- the serial write future

  /** A task that writes, after some polls: how many there were, the task, what they wrote. */
  datatype Serial = Serial(polls: nat, task: Task, out: seq<byte>)

  /** Poll a fresh serial write once per entry of `empty`, stopping when it is ready. */
  function SerialRun(data: seq<byte>, empty: seq<bool>): Serial
    decreases |empty|
  {
    if empty == [] then Serial(0, Task(0, SerialWrite(data, 0), false, None), [])
    else
      var n := |empty| - 1;
      var r := SerialRun(data, empty[..n]);
      if r.task.completed then r
      else
        var p := PollTask(r.task, Env(0, empty[n], false));
        Serial(r.polls + 1, p.task, r.out + p.out)
  }

  /** How many of the first `k` polls found the transmitter busy. */
  function Busy(empty: seq<bool>, k: nat): nat
    requires k <= |empty|
  {
    if k == 0 then 0 else Busy(empty, k - 1) + if empty[k - 1] then 0 else 1
  }

  lemma {:induction false} BusyPrefix(empty: seq<bool>, n: nat, k: nat)
    requires k <= n <= |empty|
    ensures Busy(empty[..n], k) == Busy(empty, k)
    decreases k
  {
    if k > 0 {
      BusyPrefix(empty, n, k - 1);
    }
  }

  lemma {:induction false} SerialWritten(data: seq<byte>, empty: seq<bool>)
    ensures var r := SerialRun(data, empty);
            var written := |r.out|;
            && r.task.future == SerialWrite(data, written)
            && written <= |data| && r.polls <= |empty| && r.out == data[..written]
            && (r.task.completed <==> 0 < r.polls && written == |data|)
            && (!r.task.completed ==> r.polls == |empty|)
    decreases |empty|
  {
    hide PollTask;
    if empty != [] {
      var n := |empty| - 1;
      SerialWritten(data, empty[..n]);
      PollAdvances(SerialRun(data, empty[..n]).task, Env(0, empty[n], false));
    }
  }

  lemma BusyLast(empty: seq<bool>)
    requires empty != []
    ensures var n := |empty| - 1; Busy(empty, n + 1) == Busy(empty[..n], n) + if empty[n] then 0 else 1
  {
    BusyPrefix(empty, |empty| - 1, |empty| - 1);
  }

  /** Whatever the transmitter does, the bytes emitted by the polls of the task are exactly the first
      bytes of the data, each once and in order; the task is completed exactly when all of them are
      out (after at least one poll); and while there is data each poll either wrote a byte or found
      the transmitter busy. */
  lemma {:induction false} SerialWritesInOrder(data: seq<byte>, empty: seq<bool>)
    ensures var r := SerialRun(data, empty);
            var written := |r.out|;
            && written <= |data| && r.polls <= |empty|
            && r.out == data[..written]
            && (r.task.completed <==> 0 < r.polls && written == |data|)
            && (data != [] ==> r.polls == written + Busy(empty, r.polls))
            && (data == [] ==> r.polls <= 1)
            && (!r.task.completed ==> r.polls == |empty|)
    decreases |empty|
  {
    hide PollTask;
    SerialWritten(data, empty);
    if empty != [] {
      var n := |empty| - 1;
      SerialWritesInOrder(data, empty[..n]);
      SerialWritten(data, empty[..n]);
      var r := SerialRun(data, empty[..n]);
      PollAdvances(r.task, Env(0, empty[n], false));
      if r.task.completed {
        BusyPrefix(empty, n, r.polls);
      } else {
        BusyLast(empty);
      }
    }
  }

  // ---------------------------------------------------------------- the wake-up list

  /** An entry of the wake-up list; `id` is its identity, `callback` whether it has one. */
  datatype Entry = Entry(id: nat, target: nat, callback: bool)

  /** The entries that stay when the counter reads `tick`. */
  function Waiting(entries: seq<Entry>, tick: nat): seq<Entry> {
    if entries == [] then []
    else
      var n := |entries| - 1;
      Waiting(entries[..n], tick) + if entries[n].target <= tick then [] else [entries[n]]
  }

  /** The entries whose callback runs when the counter reads `tick`, in list order. */
  function Firing(entries: seq<Entry>, tick: nat): seq<Entry> {
    if entries == [] then []
    else
      var n := |entries| - 1;
      Firing(entries[..n], tick) + if entries[n].target <= tick && entries[n].callback then [entries[n]] else []
  }

  /** The positions of the entries that `pick` accepts, in increasing order. */
  function Picked(entries: seq<Entry>, pick: Entry -> bool): (idx: seq<nat>)
    ensures forall j :: 0 <= j < |idx| ==> idx[j] < |entries| && pick(entries[idx[j]])
    ensures forall j, k :: 0 <= j < k < |idx| ==> idx[j] < idx[k]
    ensures forall i: nat :: i < |entries| && pick(entries[i]) ==> i in idx
  {
    if entries == [] then []
    else
      var n := |entries| - 1;
      Picked(entries[..n], pick) + if pick(entries[n]) then [n] else []
  }

  /** The elements of `entries` at the positions `idx`, in that order. */
  predicate TakenAt(taken: seq<Entry>, entries: seq<Entry>, idx: seq<nat>) {
    |taken| == |idx| && forall j :: 0 <= j < |idx| ==> idx[j] < |entries| && taken[j] == entries[idx[j]]
  }

  lemma {:induction false} WaitingPicked(entries: seq<Entry>, tick: nat, pick: Entry -> bool)
    requires forall e :: pick(e) <==> tick < e.target
    ensures TakenAt(Waiting(entries, tick), entries, Picked(entries, pick))
    decreases |entries|
  {
    if entries != [] {
      WaitingPicked(entries[..|entries| - 1], tick, pick);
    }
  }

  lemma {:induction false} FiringPicked(entries: seq<Entry>, tick: nat, pick: Entry -> bool)
    requires forall e :: pick(e) <==> e.target <= tick && e.callback
    ensures TakenAt(Firing(entries, tick), entries, Picked(entries, pick))
    decreases |entries|
  {
    if entries != [] {
      FiringPicked(entries[..|entries| - 1], tick, pick);
    }
  }

  /** The check of the wake-up list is two order-preserving filters: exactly the entries with a
      later target stay, and exactly the due ones with a callback fire, each in the old order. */
  lemma CheckIsFilter(entries: seq<Entry>, tick: nat)
    ensures TakenAt(Waiting(entries, tick), entries, Picked(entries, (e: Entry) => tick < e.target))
    ensures TakenAt(Firing(entries, tick), entries,
                    Picked(entries, (e: Entry) => e.target <= tick && e.callback))
  {
    WaitingPicked(entries, tick, (e: Entry) => tick < e.target);
    FiringPicked(entries, tick, (e: Entry) => e.target <= tick && e.callback);
  }

  lemma CheckExtends(entries: seq<Entry>, e: Entry, tick: nat)
    ensures Waiting(entries + [e], tick) == Waiting(entries, tick) + if e.target <= tick then [] else [e]
    ensures Firing(entries + [e], tick) == Firing(entries, tick) + if e.target <= tick && e.callback then [e] else []
  {
  }
}
