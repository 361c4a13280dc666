/** The executor and the clock interrupt as one transition system. A scan is split into its
    polls, and the decision to halt into the load of the flag and the act that follows, so that
    interrupts fall between any two of these steps. */
module KernelRuns {
  import opened Words
  import opened Sequences
  import opened Tasks

  /** Where the executor loop stands: at its head; with the task at `pos` the next to poll; after the
      scan; after loading the flag; or halted. `pending` is the loop's flag for a task that stayed. */
  datatype Pc =
    | Head
    | Scanning(pos: nat, pending: bool)
    | ScanDone(pending: bool)
    | Loaded(pending: bool, flag: bool)
    | Halted

  /** A callback run for the entry `id` when the counter read `tick`. */
  datatype Fire = Fire(id: nat, tick: nat)

  /** `lost` holds the tasks that left the queue without being polled or released. */
  datatype Kernel = Kernel(
    queue: seq<Task>, taskCount: int, shouldPoll: bool, pc: Pc,
    tick: nat, entries: seq<Entry>, entryCount: int,
    out: seq<byte>, log: seq<Event>, fired: seq<Fire>, lost: set<nat>,
    nextTask: nat, nextEntry: nat)

  datatype Step =
    | Spawn(future: Future, taskMemory: bool, wakerMemory: bool)
    | AddEntry(target: nat, callback: bool, memory: bool)
    | Tick
    | SerialInterrupt
    | BeginScan
    | Poll(transmitEmpty: bool, clockRead: bool)
    | EndScan
    | LoadFlag
    | HaltOrReset

  function Boot(): Kernel {
    Kernel([], 0, true, Head, 0, [], 0, [], [], [], {}, 0, 0)
  }

  /** A task may be spawned between any two steps, but not between a flag load that decided to halt
      and the halt, and not while halted (any interrupt ends that first). */
  predicate MaySpawn(pc: Pc) {
    match pc
    case Loaded(pending, flag) => pending || flag
    case Halted => false
    case _ => true
  }

  /** Interrupts come at any time. */
  predicate Enabled(k: Kernel, s: Step) {
    match s
    case Spawn(_, _, _) => MaySpawn(k.pc)
    case AddEntry(_, _, _) => true
    case Tick => true
    case SerialInterrupt => true
    case BeginScan => k.pc.Head?
    case Poll(_, _) => k.pc.Scanning? && k.pc.pos < |k.queue|
    case EndScan => k.pc.Scanning? && k.pc.pos >= |k.queue|
    case LoadFlag => k.pc.ScanDone?
    case HaltOrReset => k.pc.Loaded?
  }

  /** Any interrupt ends a halt. */
  function Resumed(pc: Pc): Pc {
    if pc.Halted? then Head else pc
  }

  /** A task spawned during a scan goes in front of the position, and is not polled in that scan. */
  function AfterSpawn(k: Kernel, future: Future, taskMemory: bool, wakerMemory: bool): Kernel {
    if !taskMemory then k
    else
      var task := Task(k.nextTask, future, false, if wakerMemory then Some(1) else None);
      k.(queue := [task] + k.queue, taskCount := k.taskCount + 1, shouldPoll := true, nextTask := k.nextTask + 1,
         pc := if k.pc.Scanning? then Scanning(k.pc.pos + 1, k.pc.pending) else k.pc)
  }

  /** The callbacks run by the clock interrupt that makes the counter read `tick`. */
  function Fires(entries: seq<Entry>, tick: nat): seq<Fire> {
    var due := Firing(entries, tick);
    seq(|due|, i requires 0 <= i < |due| => Fire(due[i].id, tick))
  }

  /** The clock interrupt: count, then check the wake-up list. */
  function AfterTick(k: Kernel): Kernel {
    var now := Add32(k.tick, 1);
    var waiting := Waiting(k.entries, now);
    var fires := Fires(k.entries, now);
    k.(tick := now, entries := waiting, entryCount := k.entryCount - (|k.entries| - |waiting|),
       fired := k.fired + fires, shouldPoll := k.shouldPoll || fires != [], pc := Resumed(k.pc))
  }

  /** The position that `prev_ptr` leads to: the next task to poll once a task was stepped over, and
      until then the front of the queue, whatever has been spawned there meanwhile. */
  function Link(pc: Pc): nat
    requires pc.Scanning?
  {
    if pc.pending then pc.pos else 0
  }

  function Ids(tasks: seq<Task>): set<nat> {
    set i | 0 <= i < |tasks| :: tasks[i].id
  }

  /** A ready task is removed by storing its successor where `prev_ptr` points, which also unlinks
      the tasks between `prev_ptr` and it. */
  function AfterPoll(k: Kernel, transmitEmpty: bool, clockRead: bool): Kernel
    requires k.pc.Scanning? && Link(k.pc) <= k.pc.pos < |k.queue|
  {
    var i, link := k.pc.pos, Link(k.pc);
    var p := PollTask(k.queue[i], Env(k.tick, transmitEmpty, clockRead));
    if p.ready then
      k.(queue := k.queue[..link] + k.queue[i + 1..], taskCount := k.taskCount - 1,
         out := k.out + p.out, log := k.log + RemovalEvents(p.task),
         lost := k.lost + Ids(k.queue[link..i]), pc := Scanning(link, k.pc.pending))
    else
      k.(queue := k.queue[i := p.task], out := k.out + p.out, pc := Scanning(i + 1, true))
  }

  function Next(k: Kernel, s: Step): Kernel
    requires Enabled(k, s)
  {
    match s
    case Spawn(future, taskMemory, wakerMemory) => AfterSpawn(k, future, taskMemory, wakerMemory)
    case AddEntry(target, callback, memory) =>
      if !memory then k
      else k.(entries := [Entry(k.nextEntry, target, callback)] + k.entries,
              entryCount := k.entryCount + 1, nextEntry := k.nextEntry + 1)
    case Tick => AfterTick(k)
    case SerialInterrupt => k.(shouldPoll := true, pc := Resumed(k.pc))
    case BeginScan => k.(pc := if k.queue == [] then ScanDone(false) else Scanning(0, false))
    case Poll(transmitEmpty, clockRead) => AfterPoll(k, transmitEmpty, clockRead)
    case EndScan => k.(pc := ScanDone(k.pc.pending))
    case LoadFlag => k.(pc := Loaded(k.pc.pending, k.shouldPoll))
    case HaltOrReset =>
      if !k.pc.pending && !k.pc.flag then k.(pc := Halted)
      else k.(pc := Head, shouldPoll := false)
  }

  ghost predicate LegalRun(k: Kernel, steps: seq<Step>)
    decreases |steps|
  {
    steps == [] || (Enabled(k, steps[0]) && LegalRun(Next(k, steps[0]), steps[1..]))
  }

  ghost function Run(k: Kernel, steps: seq<Step>): Kernel
    requires LegalRun(k, steps)
    decreases |steps|
  {
    if steps == [] then k else Run(Next(k, steps[0]), steps[1..])
  }

  /** A spawn puts the task in front of all others, to be polled; without memory for it, and without
      memory for an entry, nothing changes. */
  lemma SpawnAdds(k: Kernel, future: Future, wakerMemory: bool, target: nat, callback: bool)
    requires MaySpawn(k.pc)
    ensures Next(k, Spawn(future, false, wakerMemory)) == k && Next(k, AddEntry(target, callback, false)) == k
    ensures var k' := Next(k, Spawn(future, true, wakerMemory));
            && k'.queue == [Task(k.nextTask, future, false, if wakerMemory then Some(1) else None)] + k.queue
            && k'.shouldPoll && k'.taskCount == k.taskCount + 1
            && k'.out == k.out && k'.log == k.log && k'.entries == k.entries && k'.tick == k.tick
  {
  }

  /** Identities are handed out in increasing order, and the counter counts. */
  lemma NextGrows(k: Kernel, s: Step)
    requires Enabled(k, s)
    ensures k.nextTask <= Next(k, s).nextTask && k.nextEntry <= Next(k, s).nextEntry
    ensures !s.Tick? ==> Next(k, s).tick == k.tick
    ensures s.Tick? && k.tick + 1 < WORD ==> Next(k, s).tick == k.tick + 1
  {
  }

  /** How often the clock interrupt comes in a run. */
  function Ticks(steps: seq<Step>): nat {
    if steps == [] then 0 else (if steps[0].Tick? then 1 else 0) + Ticks(steps[1..])
  }

  // ---------------------------------------------------------------- the invariant of every run

  predicate UniqueTasks(queue: seq<Task>, next: nat) {
    && (forall i :: 0 <= i < |queue| ==> queue[i].id < next)
    && (forall i, j :: 0 <= i < j < |queue| ==> queue[i].id != queue[j].id)
  }

  predicate UniqueEntries(entries: seq<Entry>, next: nat) {
    && (forall i :: 0 <= i < |entries| ==> entries[i].id < next)
    && (forall i, j :: 0 <= i < j < |entries| ==> entries[i].id != entries[j].id)
  }

  /** Lost tasks are none of the queued ones. */
  predicate LostApart(queue: seq<Task>, lost: set<nat>, next: nat) {
    && (forall id :: id in lost ==> id < next)
    && (forall i :: 0 <= i < |queue| ==> queue[i].id !in lost)
  }

  /** What each position of the loop implies about the queue and the flag. */
  predicate PcInv(k: Kernel) {
    match k.pc
    case Head => true
    case Scanning(pos, pending) =>
      pos <= |k.queue| && (pending ==> pos > 0) && (!pending && pos > 0 ==> k.shouldPoll)
    case ScanDone(pending) => !pending && k.queue != [] ==> k.shouldPoll
    case Loaded(pending, flag) => !pending && !flag ==> k.queue == []
    case Halted => k.queue == []
  }

  ghost predicate Inv(k: Kernel) {
    && k.taskCount == |k.queue| + |k.lost| && k.entryCount == |k.entries|
    && LostApart(k.queue, k.lost, k.nextTask)
    && UniqueTasks(k.queue, k.nextTask) && UniqueEntries(k.entries, k.nextEntry)
    && PcInv(k)
    && KnownEvents(k.log, k.nextTask)
    && (forall i :: 0 <= i < |k.fired| ==> k.fired[i].id < k.nextEntry)
  }

  lemma {:induction false} WaitingMembers(entries: seq<Entry>, tick: nat)
    ensures |Waiting(entries, tick)| <= |entries|
    ensures forall e :: e in Waiting(entries, tick) <==> e in entries && tick < e.target
    decreases |entries|
  {
    if entries != [] {
      WaitingMembers(entries[..|entries| - 1], tick);
      assert entries == entries[..|entries| - 1] + [entries[|entries| - 1]];
    }
  }

  lemma {:induction false} WaitingUnique(entries: seq<Entry>, tick: nat, next: nat)
    requires UniqueEntries(entries, next)
    ensures UniqueEntries(Waiting(entries, tick), next)
    decreases |entries|
  {
    if entries != [] {
      var n := |entries| - 1;
      WaitingUnique(entries[..n], tick, next);
      WaitingMembers(entries[..n], tick);
      UniqueAppend(entries, Waiting(entries[..n], tick), next);
    }
  }

  lemma UniqueAppend(entries: seq<Entry>, w: seq<Entry>, next: nat)
    requires entries != [] && UniqueEntries(entries, next) && UniqueEntries(w, next)
    requires forall e :: e in w ==> e in entries[..|entries| - 1]
    ensures UniqueEntries(w + [entries[|entries| - 1]], next)
  {
    forall i | 0 <= i < |w|
      ensures w[i].id != entries[|entries| - 1].id
    {
      assert w[i] in w;
    }
  }

  lemma FiresKnown(entries: seq<Entry>, tick: nat, next: nat)
    requires UniqueEntries(entries, next)
    ensures forall i :: 0 <= i < |Fires(entries, tick)| ==> Fires(entries, tick)[i].id < next
  {
    CheckIsFilter(entries, tick);
  }

  /** Every identity occurs once, so the tasks of a stretch of the queue can be counted by it. */
  lemma {:induction false} CountIds(tasks: seq<Task>, next: nat)
    requires UniqueTasks(tasks, next)
    ensures |Ids(tasks)| == |tasks|
    decreases |tasks|
  {
    if tasks == [] {
      assert Ids(tasks) == {};
    } else {
      var n := |tasks| - 1;
      CountIds(tasks[..n], next);
      assert Ids(tasks) == Ids(tasks[..n]) + {tasks[n].id};
      assert tasks[n].id !in Ids(tasks[..n]);
    }
  }

  /** Cutting out the stretch from `link` to `i` inclusive. */
  lemma CutKeeps(queue: seq<Task>, lost: set<nat>, next: nat, link: nat, i: nat)
    requires UniqueTasks(queue, next) && LostApart(queue, lost, next) && link <= i < |queue|
    ensures var queue' := queue[..link] + queue[i + 1..];
            var lost' := lost + Ids(queue[link..i]);
            && UniqueTasks(queue', next) && LostApart(queue', lost', next)
            && |lost'| == |lost| + (i - link)
  {
    hide Ids;
    CutPlaces(queue, link, i);
    CutCounts(queue, lost, next, link, i);
    CutApart(queue, next, link, i);
  }

  /** Where the task stood that is at `j` after the cut. */
  function Origin(link: nat, i: nat, j: nat): nat
    requires link <= i
  {
    if j < link then j else j + (i + 1 - link)
  }

  lemma CutPlaces(queue: seq<Task>, link: nat, i: nat)
    requires link <= i < |queue|
    ensures var queue' := queue[..link] + queue[i + 1..];
            forall j :: 0 <= j < |queue'| ==> Origin(link, i, j) < |queue| && queue'[j] == queue[Origin(link, i, j)]
  {
  }

  lemma CutApart(queue: seq<Task>, next: nat, link: nat, i: nat)
    requires UniqueTasks(queue, next) && link <= i < |queue|
    ensures var queue' := queue[..link] + queue[i + 1..];
            forall j :: 0 <= j < |queue'| ==> queue'[j].id !in Ids(queue[link..i])
  {
    var queue', cut := queue[..link] + queue[i + 1..], queue[link..i];
    CutPlaces(queue, link, i);
    forall j | 0 <= j < |queue'|
      ensures queue'[j].id !in Ids(cut)
    {
      var o := Origin(link, i, j);
      forall c | 0 <= c < |cut|
        ensures cut[c].id != queue'[j].id
      {
        assert cut[c] == queue[link + c] && link + c != o;
      }
    }
  }

  lemma CutCounts(queue: seq<Task>, lost: set<nat>, next: nat, link: nat, i: nat)
    requires UniqueTasks(queue, next) && LostApart(queue, lost, next) && link <= i < |queue|
    ensures |lost + Ids(queue[link..i])| == |lost| + (i - link)
    ensures forall id :: id in Ids(queue[link..i]) ==> exists c :: link <= c < i && queue[c].id == id
    ensures forall id :: id in Ids(queue[link..i]) ==> id < next
  {
    var cut := queue[link..i];
    assert forall j :: 0 <= j < |cut| ==> cut[j] == queue[link + j];
    CountIds(cut, next);
    assert lost !! Ids(cut);
    assert |lost + Ids(cut)| == |lost| + |Ids(cut)|;
  }

  lemma PolledKeeps(queue: seq<Task>, lost: set<nat>, next: nat, i: nat, t: Task)
    requires UniqueTasks(queue, next) && LostApart(queue, lost, next) && i < |queue| && t.id == queue[i].id
    ensures UniqueTasks(queue[i := t], next) && LostApart(queue[i := t], lost, next)
  {
  }

  lemma PushedKeeps(queue: seq<Task>, lost: set<nat>, next: nat, t: Task)
    requires UniqueTasks(queue, next) && LostApart(queue, lost, next) && t.id == next
    ensures UniqueTasks([t] + queue, next + 1) && LostApart([t] + queue, lost, next + 1)
  {
  }

  /** What the record of releases mentions is known. */
  predicate KnownEvents(log: seq<Event>, next: nat) {
    forall i :: 0 <= i < |log| ==> log[i].id < next
  }

  lemma ReleasesKnown(log: seq<Event>, t: Task, next: nat)
    requires KnownEvents(log, next) && t.id < next
    ensures KnownEvents(log + RemovalEvents(t), next)
  {
    assert forall j :: 0 <= j < |RemovalEvents(t)| ==> RemovalEvents(t)[j].id == t.id;
  }

  lemma EventsStillKnown(log: seq<Event>, next: nat)
    requires KnownEvents(log, next)
    ensures KnownEvents(log, next + 1)
  {
  }

  lemma FirstKnown(queue: seq<Task>, next: nat, i: nat)
    requires UniqueTasks(queue, next) && i < |queue|
    ensures queue[i].id < next
  {
  }

  lemma PollKeepsInv(k: Kernel, transmitEmpty: bool, clockRead: bool)
    requires Inv(k) && k.pc.Scanning? && k.pc.pos < |k.queue|
    ensures Inv(AfterPoll(k, transmitEmpty, clockRead))
  {
    hide Ids, PollTask, RemovalEvents, UniqueTasks, UniqueEntries, LostApart, KnownEvents;
    var i, env := k.pc.pos, Env(k.tick, transmitEmpty, clockRead);
    var p := PollTask(k.queue[i], env);
    PolledSame(k.queue[i], env);
    FirstKnown(k.queue, k.nextTask, i);
    if p.ready {
      CutKeeps(k.queue, k.lost, k.nextTask, Link(k.pc), i);
      ReleasesKnown(k.log, p.task, k.nextTask);
    } else {
      PolledKeeps(k.queue, k.lost, k.nextTask, i, p.task);
    }
  }

  lemma NextKeepsInv(k: Kernel, s: Step)
    requires Inv(k) && Enabled(k, s)
    ensures Inv(Next(k, s))
  {
    hide AfterPoll, Waiting, Fires, UniqueTasks, LostApart, KnownEvents;
    match s
    case Tick =>
      var now := Add32(k.tick, 1);
      WaitingMembers(k.entries, now);
      WaitingUnique(k.entries, now, k.nextEntry);
      FiresKnown(k.entries, now, k.nextEntry);
    case Poll(transmitEmpty, clockRead) => PollKeepsInv(k, transmitEmpty, clockRead);
    case Spawn(_, taskMemory, _) =>
      if taskMemory {
        PushedKeeps(k.queue, k.lost, k.nextTask, Next(k, s).queue[0]);
        EventsStillKnown(k.log, k.nextTask);
      }
    case _ =>
  }

  /** In every reachable state the counters equal the list lengths, identities are unique, and
      the processor is halted only with an empty task queue. */
  lemma {:induction false} RunKeepsInv(k: Kernel, steps: seq<Step>)
    requires Inv(k) && LegalRun(k, steps)
    ensures Inv(Run(k, steps))
    decreases |steps|
  {
    if steps != [] {
      NextKeepsInv(k, steps[0]);
      RunKeepsInv(Next(k, steps[0]), steps[1..]);
    }
  }

  lemma BootInv()
    ensures Inv(Boot())
  {
  }

  /** No pending task is ever stranded behind a halted processor. */
  lemma HaltsOnlyWhenIdle(steps: seq<Step>)
    requires LegalRun(Boot(), steps)
    ensures Run(Boot(), steps).pc.Halted? ==> Run(Boot(), steps).queue == []
  {
    BootInv();
    RunKeepsInv(Boot(), steps);
  }

  /** The excluded window is exact: a task spawned after the flag was loaded is left behind a halted
      processor by the executor's next step if and only if that load had decided to halt. */
  lemma SpawnStrandsExactly(k: Kernel, future: Future, wakerMemory: bool)
    requires Inv(k) && k.pc.Loaded?
    ensures var spawned := AfterSpawn(k, future, true, wakerMemory);
            var k' := Next(spawned, HaltOrReset);
            && (k'.pc.Halted? && k'.queue != [] <==> !k.pc.pending && !k.pc.flag)
            && (Inv(k') <==> k.pc.pending || k.pc.flag)
  {
    var s := Spawn(future, true, wakerMemory);
    if Enabled(k, s) {
      NextKeepsInv(k, s);
      NextKeepsInv(Next(k, s), HaltOrReset);
    }
  }

  // ---------------------------------------------------------------- tasks lost by a scan

  /** A poll that is ready while tasks spawned during the scan stand in front of it and the scan has
      stepped over none. */
  predicate LosesTasks(k: Kernel, s: Step)
    requires Enabled(k, s)
  {
    s.Poll? && !k.pc.pending && k.pc.pos > 0 &&
    PollTask(k.queue[k.pc.pos], Env(k.tick, s.transmitEmpty, s.clockRead)).ready
  }

  ghost predicate NothingLost(k: Kernel, steps: seq<Step>)
    requires LegalRun(k, steps)
    decreases |steps|
  {
    steps == [] || (!LosesTasks(k, steps[0]) && NothingLost(Next(k, steps[0]), steps[1..]))
  }

  lemma NextLoses(k: Kernel, s: Step)
    requires Inv(k) && Enabled(k, s)
    ensures k.lost <= Next(k, s).lost && (Next(k, s).lost == k.lost <==> !LosesTasks(k, s))
  {
    if LosesTasks(k, s) {
      assert k.queue[0..k.pc.pos][0] == k.queue[0];
      assert k.queue[0].id in Next(k, s).lost;
    } else if s.Poll? {
      assert Ids(k.queue[k.pc.pos..k.pc.pos]) == {};
    }
  }

  lemma {:induction false} LostGrows(k: Kernel, steps: seq<Step>)
    requires Inv(k) && LegalRun(k, steps)
    ensures k.lost <= Run(k, steps).lost
    decreases |steps|
  {
    hide Inv, Next, LosesTasks;
    if steps != [] {
      NextLoses(k, steps[0]);
      NextKeepsInv(k, steps[0]);
      LostGrows(Next(k, steps[0]), steps[1..]);
    }
  }

  /** Over every run, a task is lost if and only if some poll is ready while tasks spawned during its
      scan stand in front of it and the scan has stepped over none. */
  lemma {:induction false} RunLosesExactly(k: Kernel, steps: seq<Step>)
    requires Inv(k) && LegalRun(k, steps)
    ensures Run(k, steps).lost == k.lost <==> NothingLost(k, steps)
    decreases |steps|
  {
    hide Inv, Next, LosesTasks;
    if steps != [] {
      NextLoses(k, steps[0]);
      NextKeepsInv(k, steps[0]);
      LostGrows(Next(k, steps[0]), steps[1..]);
      RunLosesExactly(Next(k, steps[0]), steps[1..]);
    }
  }

  /** From boot `task_count` is the length of the queue if and only if that never happens. */
  lemma CountIsLengthExactly(steps: seq<Step>)
    requires LegalRun(Boot(), steps)
    ensures Run(Boot(), steps).taskCount == |Run(Boot(), steps).queue| <==> NothingLost(Boot(), steps)
  {
    hide Next, LegalRun, Run, NothingLost;
    BootInv();
    RunKeepsInv(Boot(), steps);
    RunLosesExactly(Boot(), steps);
  }

  // ---------------------------------------------------------------- a scan is followed by a scan

  predicate ExecutorStep(s: Step) {
    s.BeginScan? || s.Poll? || s.EndScan? || s.LoadFlag? || s.HaltOrReset?
  }

  /** The steps the executor itself takes in a run. */
  function OwnSteps(steps: seq<Step>): nat {
    if steps == [] then 0 else (if ExecutorStep(steps[0]) then 1 else 0) + OwnSteps(steps[1..])
  }

  /** Where the executor stands `n` of its own steps after a scan that left a task pending. */
  predicate OnTheWay(k: Kernel, n: nat) {
    k.queue != [] &&
    match n
    case 0 => k.pc == ScanDone(true)
    case 1 => k.pc.Loaded? && k.pc.pending
    case 2 => k.pc.Head?
    case _ => k.pc.Scanning? && !k.pc.pending
  }

  lemma {:induction false} StaysOnTheWay(k: Kernel, steps: seq<Step>, n: nat)
    requires LegalRun(k, steps) && OnTheWay(k, n) && n + OwnSteps(steps) <= 3
    ensures OnTheWay(Run(k, steps), n + OwnSteps(steps))
    decreases |steps|
  {
    if steps != [] {
      var m := n + if ExecutorStep(steps[0]) then 1 else 0;
      assert OnTheWay(Next(k, steps[0]), m);
      StaysOnTheWay(Next(k, steps[0]), steps[1..], m);
    }
  }

  /** After a scan that leaves a task pending, whatever interrupts and spawns come between, the
      executor's next three steps start another scan; it does not halt on the way. */
  lemma PendingMeansAnotherScan(k: Kernel, steps: seq<Step>)
    requires k.pc == ScanDone(true) && k.queue != [] && LegalRun(k, steps) && OwnSteps(steps) <= 3
    ensures !Run(k, steps).pc.Halted?
    ensures OwnSteps(steps) == 3 ==>
              Run(k, steps).pc.Scanning? && !Run(k, steps).pc.pending && Run(k, steps).queue != []
  {
    StaysOnTheWay(k, steps, 0);
  }

  // ---------------------------------------------------------------- wake-up entries fire once

  /** The ticks at which the callback of entry `id` ran. */
  function TicksOf(fired: seq<Fire>, id: nat): seq<nat> {
    if fired == [] then []
    else
      var n := |fired| - 1;
      TicksOf(fired[..n], id) + if fired[n].id == id then [fired[n].tick] else []
  }

  lemma {:induction false} TicksOfConcat(a: seq<Fire>, b: seq<Fire>, id: nat)
    ensures TicksOf(a + b, id) == TicksOf(a, id) + TicksOf(b, id)
    decreases |b|
  {
    if b == [] {
      assert a + b == a;
    } else {
      var n := |b| - 1;
      TicksOfConcat(a, b[..n], id);
      assert (a + b)[..|a| + n] == a + b[..n] && (a + b)[|a| + n] == b[n];
      Associates(TicksOf(a, id), TicksOf(b[..n], id), if b[n].id == id then [b[n].tick] else []);
    }
  }

  lemma {:induction false} TicksOfNone(fired: seq<Fire>, id: nat)
    requires forall i :: 0 <= i < |fired| ==> fired[i].id != id
    ensures TicksOf(fired, id) == []
    decreases |fired|
  {
    if fired != [] {
      TicksOfNone(fired[..|fired| - 1], id);
    }
  }

  lemma {:induction false} FiresOf(entries: seq<Entry>, tick: nat, next: nat, id: nat)
    requires UniqueEntries(entries, next)
    ensures (forall e :: e in entries ==> e.id != id) ==> TicksOf(Fires(entries, tick), id) == []
    ensures forall e :: e in entries && e.id == id ==>
              TicksOf(Fires(entries, tick), id) == if e.target <= tick && e.callback then [tick] else []
    decreases |entries|
  {
    if entries != [] {
      var n := |entries| - 1;
      FiresOf(entries[..n], tick, next, id);
      FiresOfLast(entries, tick, id);
      assert forall e :: e in entries[..n] && e.id == entries[n].id ==> false;
      assert forall e :: e in entries <==> e == entries[n] || e in entries[..n];
    }
  }

  lemma FiresOfLast(entries: seq<Entry>, tick: nat, id: nat)
    requires entries != []
    ensures var n := |entries| - 1;
            var last := entries[n];
            TicksOf(Fires(entries, tick), id) == TicksOf(Fires(entries[..n], tick), id) +
              if last.target <= tick && last.callback && last.id == id then [tick] else []
  {
    var n := |entries| - 1;
    var last := entries[n];
    var f := if last.target <= tick && last.callback then [Fire(last.id, tick)] else [];
    assert Fires(entries, tick) == Fires(entries[..n], tick) + f;
    TicksOfConcat(Fires(entries[..n], tick), f, id);
    assert f != [] ==> f[..0] == [];
  }

  /** Entry `e` is waiting for tick `due`, or has fired then and is gone. */
  ghost predicate Tracks(k: Kernel, e: Entry, due: nat) {
    if k.tick < due then
      && e in k.entries && TicksOf(k.fired, e.id) == []
      && (e.target == due || (due == k.tick + 1 && e.target <= k.tick))
    else
      && (forall x :: x in k.entries ==> x.id != e.id)
      && TicksOf(k.fired, e.id) == [due]
  }

  lemma TickTracks(k: Kernel, e: Entry, due: nat)
    requires Inv(k) && e.callback && Tracks(k, e, due) && k.tick + 1 < WORD
    ensures Tracks(AfterTick(k), e, due)
  {
    hide Waiting, Fires, TicksOf;
    var now := k.tick + 1;
    assert Add32(k.tick, 1) == now;
    WaitingMembers(k.entries, now);
    FiresOf(k.entries, now, k.nextEntry, e.id);
    TicksOfConcat(k.fired, Fires(k.entries, now), e.id);
    if k.tick < due <= now {
      forall x | x in Waiting(k.entries, now)
        ensures x.id != e.id
      {
        assert x in k.entries && e in k.entries && x != e;
      }
    }
  }

  lemma NextTracks(k: Kernel, s: Step, e: Entry, due: nat)
    requires Inv(k) && Enabled(k, s) && e.callback && e.id < k.nextEntry && Tracks(k, e, due)
    requires s.Tick? ==> k.tick + 1 < WORD
    ensures Tracks(Next(k, s), e, due)
  {
    match s
    case Tick => TickTracks(k, e, due);
    case AddEntry(target, callback, memory) =>
      if memory {
        var added := Entry(k.nextEntry, target, callback);
        assert forall x :: x in [added] + k.entries ==> x == added || x in k.entries;
        assert forall x :: x in k.entries ==> x in [added] + k.entries;
      }
    case _ =>
  }

  lemma {:induction false} RunTracks(k: Kernel, steps: seq<Step>, e: Entry, due: nat)
    requires Inv(k) && LegalRun(k, steps) && k.tick + Ticks(steps) < WORD
    requires e.callback && e.id < k.nextEntry && Tracks(k, e, due)
    ensures Tracks(Run(k, steps), e, due) && Run(k, steps).tick == k.tick + Ticks(steps)
    decreases |steps|
  {
    hide Tracks, Inv, Next;
    if steps != [] {
      NextGrows(k, steps[0]);
      NextKeepsInv(k, steps[0]);
      NextTracks(k, steps[0], e, due);
      RunTracks(Next(k, steps[0]), steps[1..], e, due);
    }
  }

  /** While the counter does not wrap, in every run after an entry is added its callback runs
      exactly once, in the interrupt that brings the counter to the target (to the next tick,
      when the target is not ahead), and never before. */
  lemma EntryFiresExactlyOnce(k: Kernel, target: nat, steps: seq<Step>)
    requires Inv(k) && k.tick + Ticks(steps) < WORD
    requires LegalRun(Next(k, AddEntry(target, true, true)), steps)
    ensures var due := if k.tick < target then target else k.tick + 1;
            var e := Entry(k.nextEntry, target, true);
            var k' := Run(Next(k, AddEntry(target, true, true)), steps);
            && k'.tick == k.tick + Ticks(steps)
            && TicksOf(k'.fired, e.id) == (if k'.tick < due then [] else [due])
            && (e in k'.entries <==> k'.tick < due)
  {
    var due := if k.tick < target then target else k.tick + 1;
    var e := Entry(k.nextEntry, target, true);
    var k1 := Next(k, AddEntry(target, true, true));
    NextKeepsInv(k, AddEntry(target, true, true));
    TicksOfNone(k1.fired, e.id);
    assert e in k1.entries;
    RunTracks(k1, steps, e, due);
  }

  /** After every clock interrupt the remaining entries all wait for a later tick. */
  lemma TickLeavesLaterEntries(k: Kernel)
    ensures forall e :: e in Next(k, Tick).entries ==> Next(k, Tick).tick < e.target
  {
    WaitingMembers(k.entries, Add32(k.tick, 1));
  }

  /** The step is an interrupt that asks for a poll: a serial interrupt, or a clock interrupt for which
      some callback is due. */
  ghost predicate Wakes(k: Kernel, s: Step) {
    s.SerialInterrupt? ||
    (s.Tick? && exists e :: e in k.entries && e.callback && e.target <= Add32(k.tick, 1))
  }

  /** After a clock interrupt the flag is set if and only if it was set or a callback was due; every
      clock interrupt leaves the processor running, and the task queue as it was. */
  lemma TickWakesExecutor(k: Kernel)
    ensures var k' := Next(k, Tick);
            && (k'.shouldPoll <==> k.shouldPoll || Wakes(k, Tick))
            && !k'.pc.Halted? && (!k.pc.Halted? ==> k'.pc == k.pc)
            && k'.queue == k.queue && k'.out == k.out && k'.log == k.log
            && (k.tick < 0x1_0000_0000 ==> k'.tick == if k.tick == 0xFFFF_FFFF then 0 else k.tick + 1)
  {
    SomethingFires(k.entries, Add32(k.tick, 1));
  }

  /** A serial interrupt sets the flag and ends a halt, and does nothing else. */
  lemma SerialInterruptWakes(k: Kernel)
    ensures var k' := Next(k, SerialInterrupt);
            && k'.shouldPoll && !k'.pc.Halted? && (k.pc.Halted? ==> k'.pc.Head?)
            && k'.(shouldPoll := k.shouldPoll, pc := k.pc) == k && (!k.pc.Halted? ==> k'.pc == k.pc)
  {
  }

  lemma SomethingFires(entries: seq<Entry>, tick: nat)
    ensures (exists e :: e in entries && e.callback && e.target <= tick) <==> Fires(entries, tick) != []
  {
    CheckIsFilter(entries, tick);
    var due := Picked(entries, (e: Entry) => e.target <= tick && e.callback);
    if Fires(entries, tick) != [] {
      assert entries[due[0]] in entries;
    }
    if e :| e in entries && e.callback && e.target <= tick {
      var i :| 0 <= i < |entries| && entries[i] == e;
      assert i in due;
    }
  }

  // ---------------------------------------------------------------- tasks are released once

  /** What was released for task `id`, in order. */
  function EventsOf(log: seq<Event>, id: nat): seq<Event> {
    if log == [] then []
    else
      var n := |log| - 1;
      EventsOf(log[..n], id) + if log[n].id == id then [log[n]] else []
  }

  lemma {:induction false} EventsOfConcat(a: seq<Event>, b: seq<Event>, id: nat)
    ensures EventsOf(a + b, id) == EventsOf(a, id) + EventsOf(b, id)
    decreases |b|
  {
    if b == [] {
      assert a + b == a;
    } else {
      var n := |b| - 1;
      EventsOfConcat(a, b[..n], id);
      assert (a + b)[..|a| + n] == a + b[..n] && (a + b)[|a| + n] == b[n];
      Associates(EventsOf(a, id), EventsOf(b[..n], id), if b[n].id == id then [b[n]] else []);
    }
  }

  lemma {:induction false} EventsOfUniform(log: seq<Event>, id: nat, owner: nat)
    requires forall i :: 0 <= i < |log| ==> log[i].id == owner
    ensures EventsOf(log, id) == if id == owner then log else []
    decreases |log|
  {
    if log != [] {
      var n := |log| - 1;
      EventsOfUniform(log[..n], id, owner);
      assert log == log[..n] + [log[n]];
    }
  }

  lemma {:induction false} EventsOfNone(log: seq<Event>, id: nat)
    requires forall i :: 0 <= i < |log| ==> log[i].id != id
    ensures EventsOf(log, id) == []
    decreases |log|
  {
    if log != [] {
      EventsOfNone(log[..|log| - 1], id);
    }
  }

  /** `t` is a later state of the task `t0`. */
  predicate SameTask(t: Task, t0: Task) {
    && t.id == t0.id && t.waker == t0.waker
    && match t0.future {
         case Sleep(_) => t.future == t0.future
         case SerialWrite(data, _) => t.future.SerialWrite? && t.future.data == data
         case RtcRead => t.future.RtcRead?
       }
  }

  ghost predicate Queued(queue: seq<Task>, id: nat) {
    exists i :: 0 <= i < |queue| && queue[i].id == id
  }

  /** Task `t0` is in the queue or lost, and nothing of it was released, or it is gone and exactly
      what a removal releases was released. */
  ghost predicate Owned(queue: seq<Task>, lost: set<nat>, log: seq<Event>, t0: Task) {
    && (forall i :: 0 <= i < |queue| && queue[i].id == t0.id ==> SameTask(queue[i], t0))
    && EventsOf(log, t0.id) == if Queued(queue, t0.id) || t0.id in lost then [] else RemovalEvents(t0)
  }

  lemma RemovedQueue(queue: seq<Task>, next: nat, link: nat, i: nat, id: nat)
    requires UniqueTasks(queue, next) && link <= i < |queue|
    ensures Queued(queue[..link] + queue[i + 1..], id)
            <==> Queued(queue, id) && id != queue[i].id && id !in Ids(queue[link..i])
    ensures id in Ids(queue[link..i]) ==> Queued(queue, id) && id != queue[i].id
    ensures forall t :: t in queue[..link] + queue[i + 1..] ==> t in queue
  {
    var queue', cut, n := queue[..link] + queue[i + 1..], queue[link..i], i + 1 - link;
    assert forall j :: 0 <= j < |queue'| ==> queue'[j] == queue[if j < link then j else j + n];
    assert forall j :: 0 <= j < |cut| ==> cut[j] == queue[link + j];
    if j :| 0 <= j < |queue| && queue[j].id == id {
      if j < link || i < j {
        assert queue'[if j < link then j else j - n].id == id;
      } else if j < i {
        assert cut[j - link].id == id;
      }
    }
  }

  lemma PolledQueue(queue: seq<Task>, i: nat, t: Task, id: nat)
    requires i < |queue| && t.id == queue[i].id
    ensures Queued(queue[i := t], id) <==> Queued(queue, id)
  {
    assert forall j :: 0 <= j < |queue| ==> queue[i := t][j].id == queue[j].id;
  }

  lemma PushedQueue(queue: seq<Task>, t: Task, id: nat)
    requires t.id != id
    ensures Queued([t] + queue, id) <==> Queued(queue, id)
  {
    assert forall i :: 0 < i < |[t] + queue| ==> ([t] + queue)[i] == queue[i - 1];
    assert forall i :: 0 <= i < |queue| ==> ([t] + queue)[i + 1] == queue[i];
  }

  lemma RemovedOwned(queue: seq<Task>, lost: set<nat>, log: seq<Event>, next: nat, link: nat, i: nat, t: Task, t0: Task)
    requires UniqueTasks(queue, next) && LostApart(queue, lost, next) && link <= i < |queue|
    requires SameTask(t, queue[i]) && Owned(queue, lost, log, t0)
    ensures Owned(queue[..link] + queue[i + 1..], lost + Ids(queue[link..i]), log + RemovalEvents(t), t0)
  {
    hide RemovalEvents, Ids;
    RemovedQueue(queue, next, link, i, t0.id);
    EventsOfConcat(log, RemovalEvents(t), t0.id);
    RemovalEventsOf(t, t0.id);
    assert queue[i].id == t0.id ==> SameTask(queue[i], t0);
    SameRelease(t, t0);
  }

  lemma RemovalEventsOf(t: Task, id: nat)
    ensures EventsOf(RemovalEvents(t), id) == if id == t.id then RemovalEvents(t) else []
  {
    EventsOfUniform(RemovalEvents(t), id, t.id);
  }

  lemma SameRelease(t: Task, t0: Task)
    ensures SameTask(t, t0) ==> RemovalEvents(t) == RemovalEvents(t0)
  {
  }

  lemma PolledSame(t: Task, env: Env)
    ensures SameTask(PollTask(t, env).task, t)
    ensures t.future.Sleep? && !t.completed && !PollTask(t, env).ready ==> PollTask(t, env).task == t
  {
  }

  lemma NextOwned(k: Kernel, s: Step, t0: Task)
    requires Inv(k) && Enabled(k, s) && t0.id < k.nextTask && Owned(k.queue, k.lost, k.log, t0)
    ensures Owned(Next(k, s).queue, Next(k, s).lost, Next(k, s).log, t0)
  {
    hide PollTask, RemovalEvents, Owned;
    match s
    case Poll(transmitEmpty, clockRead) =>
      var i, env := k.pc.pos, Env(k.tick, transmitEmpty, clockRead);
      var p := PollTask(k.queue[i], env);
      PolledSame(k.queue[i], env);
      if p.ready {
        RemovedOwned(k.queue, k.lost, k.log, k.nextTask, Link(k.pc), i, p.task, t0);
      } else {
        PolledOwned(k.queue, k.lost, k.log, i, p.task, t0);
      }
    case Spawn(_, taskMemory, _) =>
      if taskMemory {
        PushedOwned(k.queue, k.lost, k.log, Next(k, s).queue[0], t0);
      }
    case _ =>
  }

  lemma PolledOwned(queue: seq<Task>, lost: set<nat>, log: seq<Event>, i: nat, t: Task, t0: Task)
    requires i < |queue| && SameTask(t, queue[i]) && Owned(queue, lost, log, t0)
    ensures Owned(queue[i := t], lost, log, t0)
  {
    PolledQueue(queue, i, t, t0.id);
  }

  lemma PushedOwned(queue: seq<Task>, lost: set<nat>, log: seq<Event>, t: Task, t0: Task)
    requires t.id != t0.id && Owned(queue, lost, log, t0)
    ensures Owned([t] + queue, lost, log, t0)
  {
    PushedQueue(queue, t, t0.id);
  }

  lemma {:induction false} RunOwned(k: Kernel, steps: seq<Step>, t0: Task)
    requires Inv(k) && LegalRun(k, steps) && t0.id < k.nextTask && Owned(k.queue, k.lost, k.log, t0)
    ensures Owned(Run(k, steps).queue, Run(k, steps).lost, Run(k, steps).log, t0)
    decreases |steps|
  {
    hide Owned, Inv, Next;
    if steps != [] {
      NextGrows(k, steps[0]);
      NextKeepsInv(k, steps[0]);
      NextOwned(k, steps[0], t0);
      RunOwned(Next(k, steps[0]), steps[1..], t0);
    }
  }

  /** In every run after a task is spawned, nothing of it is released while it is queued or if it is
      lost, and once it has left the queue otherwise exactly one removal's worth was released: by
      `FutureFreedOnceUnlessClock`, each of its parts once, unless it reads the clock. */
  lemma TaskReleasedExactlyOnce(k: Kernel, future: Future, wakerMemory: bool, steps: seq<Step>)
    requires Inv(k) && Enabled(k, Spawn(future, true, wakerMemory))
    requires LegalRun(Next(k, Spawn(future, true, wakerMemory)), steps)
    ensures var t0 := Task(k.nextTask, future, false, if wakerMemory then Some(1) else None);
            var k' := Run(Next(k, Spawn(future, true, wakerMemory)), steps);
            EventsOf(k'.log, t0.id)
            == if Queued(k'.queue, t0.id) || t0.id in k'.lost then [] else RemovalEvents(t0)
  {
    var s := Spawn(future, true, wakerMemory);
    var t0 := Task(k.nextTask, future, false, if wakerMemory then Some(1) else None);
    NextKeepsInv(k, s);
    EventsOfNone(k.log, t0.id);
    assert Next(k, s).queue[0] == t0;
    assert Queued(Next(k, s).queue, t0.id);
    RunOwned(Next(k, s), steps, t0);
  }

  lemma EventsOfAppend(log: seq<Event>, e: Event, id: nat)
    ensures EventsOf(log + [e], id) == EventsOf(log, id) + if e.id == id then [e] else []
  {
    assert (log + [e])[..|log|] == log;
  }

  lemma {:induction false} CountOfEvents(log: seq<Event>, e: Event)
    ensures multiset(log)[e] == multiset(EventsOf(log, e.id))[e]
    decreases |log|
  {
    hide EventsOf;
    EventsOfNone([], e.id);
    if log != [] {
      var init, last := log[..|log| - 1], log[|log| - 1];
      assert log == init + [last];
      CountOfEvents(init, e);
      EventsOfAppend(init, last, e.id);
      CountAppend(init, last, e);
      CountAppend(EventsOf(init, e.id), last, e);
    }
  }

  /** In every run after a task is spawned: once it has left the queue, and is not lost, its cleanup
      ran once, its task was freed once, its waker (if it got one) was freed once, and its future was
      freed once if and only if it does not read the clock; otherwise none of this happened. */
  lemma PartsFreedExactlyOnce(k: Kernel, future: Future, wakerMemory: bool, steps: seq<Step>)
    requires Inv(k) && Enabled(k, Spawn(future, true, wakerMemory))
    requires LegalRun(Next(k, Spawn(future, true, wakerMemory)), steps)
    ensures var id := k.nextTask;
            var k' := Run(Next(k, Spawn(future, true, wakerMemory)), steps);
            var released := multiset(k'.log);
            if Queued(k'.queue, id) || id in k'.lost then
              && released[Cleanup(id)] == released[FreeTask(id)] == 0
              && released[FreeWaker(id)] == released[FreeFuture(id)] == 0
            else
              && released[Cleanup(id)] == 1 && released[FreeTask(id)] == 1
              && released[FreeWaker(id)] == (if wakerMemory then 1 else 0)
              && (released[FreeFuture(id)] == 1 <==> !future.RtcRead?)
  {
    hide RemovalEvents, Run, LegalRun, Next, Inv;
    var id := k.nextTask;
    var log := Run(Next(k, Spawn(future, true, wakerMemory)), steps).log;
    TaskReleasedExactlyOnce(k, future, wakerMemory, steps);
    FutureFreedOnceUnlessClock(Task(id, future, false, if wakerMemory then Some(1) else None));
    CountOfEvents(log, Cleanup(id));
    CountOfEvents(log, FreeTask(id));
    CountOfEvents(log, FreeWaker(id));
    CountOfEvents(log, FreeFuture(id));
  }

  // ---------------------------------------------------------------- sleep futures

  /** Task `id` sleeps until `target`: it is queued, or lost, or the counter has reached the target. */
  ghost predicate Asleep(queue: seq<Task>, lost: set<nat>, tick: nat, id: nat, target: nat) {
    && (forall t :: t in queue && t.id == id ==> t.future == Sleep(target) && !t.completed)
    && (Queued(queue, id) || id in lost || target <= tick)
  }

  lemma NextAsleep(k: Kernel, s: Step, id: nat, target: nat)
    requires Inv(k) && Enabled(k, s) && id < k.nextTask && Asleep(k.queue, k.lost, k.tick, id, target)
    requires s.Tick? ==> k.tick + 1 < WORD
    ensures Asleep(Next(k, s).queue, Next(k, s).lost, Next(k, s).tick, id, target)
  {
    hide RemovalEvents;
    match s
    case Poll(transmitEmpty, clockRead) =>
      var i, env := k.pc.pos, Env(k.tick, transmitEmpty, clockRead);
      var t := k.queue[i];
      assert t in k.queue;
      PolledSame(t, env);
      PollAsleep(k.queue, k.lost, k.nextTask, Link(k.pc), i, PollTask(t, env).task, k.tick, id, target);
    case Spawn(_, taskMemory, _) =>
      if taskMemory {
        PushedQueue(k.queue, Next(k, s).queue[0], id);
      }
    case _ =>
  }

  lemma PollAsleep(queue: seq<Task>, lost: set<nat>, next: nat, link: nat, i: nat, t: Task,
                   tick: nat, id: nat, target: nat)
    requires UniqueTasks(queue, next) && link <= i < |queue| && t.id == queue[i].id
    requires Asleep(queue, lost, tick, id, target)
    ensures t == queue[i] || t.id != id ==> Asleep(queue[i := t], lost, tick, id, target)
    ensures target <= tick || t.id != id ==>
              Asleep(queue[..link] + queue[i + 1..], lost + Ids(queue[link..i]), tick, id, target)
  {
    hide Ids;
    RemovedQueue(queue, next, link, i, id);
    PolledQueue(queue, i, t, id);
    assert forall x :: x in queue[i := t] ==> x == t || x in queue;
  }

  lemma {:induction false} RunAsleep(k: Kernel, steps: seq<Step>, id: nat, target: nat)
    requires Inv(k) && LegalRun(k, steps) && k.tick + Ticks(steps) < WORD
    requires id < k.nextTask && Asleep(k.queue, k.lost, k.tick, id, target)
    ensures Asleep(Run(k, steps).queue, Run(k, steps).lost, Run(k, steps).tick, id, target)
    decreases |steps|
  {
    hide Asleep, Inv, Next;
    if steps != [] {
      NextGrows(k, steps[0]);
      NextKeepsInv(k, steps[0]);
      NextAsleep(k, steps[0], id, target);
      RunAsleep(Next(k, steps[0]), steps[1..], id, target);
    }
  }

  /** A sleep of `n` ticks created at tick `created`, with no wrap, is in the queue (or lost) for as
      long as the counter is below `created + n`, in every run: it is never removed early. */
  lemma SleepNeverEndsEarly(k: Kernel, created: nat, n: nat, wakerMemory: bool, steps: seq<Step>)
    requires Inv(k) && created + n < WORD
    requires var s := Spawn(Sleep(SleepTarget(created, n)), true, wakerMemory);
             Enabled(k, s) && LegalRun(Next(k, s), steps)
    requires k.tick + Ticks(steps) < WORD
    ensures var s := Spawn(Sleep(SleepTarget(created, n)), true, wakerMemory);
            var k' := Run(Next(k, s), steps);
            !Queued(k'.queue, k.nextTask) && k.nextTask !in k'.lost ==> created + n <= k'.tick
  {
    var s := Spawn(Sleep(SleepTarget(created, n)), true, wakerMemory);
    var k1 := Next(k, s);
    NextKeepsInv(k, s);
    assert k1.queue[0].id == k.nextTask;
    assert forall t :: t in k1.queue ==> t == k1.queue[0] || t in k.queue;
    RunAsleep(k1, steps, k.nextTask, SleepTarget(created, n));
  }

  /** The polled part of the queue does not hold task `id`: it is still to be polled in this scan, or
      was removed in it. */
  ghost predicate Passed(k: Kernel, id: nat) {
    match k.pc
    case Scanning(pos, _) => forall i :: 0 <= i < |k.queue| && i < pos ==> k.queue[i].id != id
    case ScanDone(_) => !Queued(k.queue, id)
    case _ => false
  }

  /** The steps that can come while a scan runs, besides spawns. */
  predicate InScan(s: Step) {
    s.Poll? || s.EndScan? || s.Tick? || s.SerialInterrupt? || s.AddEntry?
  }

  lemma NextPassed(k: Kernel, s: Step, id: nat, target: nat)
    requires Enabled(k, s) && Asleep(k.queue, k.lost, k.tick, id, target)
    requires target <= k.tick && Passed(k, id) && (InScan(s) || s.Spawn?) && id < k.nextTask
    ensures Passed(Next(k, s), id) && (id in Next(k, s).lost ==> id in k.lost)
  {
    hide PollTask, RemovalEvents, Waiting, Fires;
    if s.Spawn? && s.taskMemory {
      PushedQueue(k.queue, Next(k, s).queue[0], id);
    } else if s.Poll? {
      var i, env := k.pc.pos, Env(k.tick, s.transmitEmpty, s.clockRead);
      assert k.queue[i] in k.queue;
      PollAdvances(k.queue[i], env);
      if PollTask(k.queue[i], env).ready {
        var link := Link(k.pc);
        assert forall j :: 0 <= j < i - link ==> k.queue[link..i][j] == k.queue[link + j];
        assert forall j :: 0 <= j < link ==> Next(k, s).queue[j] == k.queue[j];
      }
    }
  }

  lemma {:induction false} SleeperPassed(k: Kernel, steps: seq<Step>, id: nat, target: nat)
    requires Inv(k) && LegalRun(k, steps) && k.tick + Ticks(steps) < WORD
    requires forall i :: 0 <= i < |steps| ==> InScan(steps[i]) || steps[i].Spawn?
    requires id < k.nextTask && Asleep(k.queue, k.lost, k.tick, id, target) && target <= k.tick && Passed(k, id)
    ensures Passed(Run(k, steps), id) && (id in Run(k, steps).lost ==> id in k.lost)
    decreases |steps|
  {
    hide Asleep, Inv, Next, InScan;
    if steps != [] {
      NextGrows(k, steps[0]);
      NextKeepsInv(k, steps[0]);
      NextAsleep(k, steps[0], id, target);
      NextPassed(k, steps[0], id, target);
      SleeperPassed(Next(k, steps[0]), steps[1..], id, target);
    }
  }

  /** A scan that has not yet polled the sleeping task when the counter reaches its target removes it,
      whatever interrupts and spawns come during the scan; this covers every scan begun at or after the
      target. */
  lemma ScanRemovesSleeper(k: Kernel, steps: seq<Step>, id: nat, target: nat)
    requires Inv(k) && LegalRun(k, steps) && k.tick + Ticks(steps) < WORD
    requires forall i :: 0 <= i < |steps| ==> InScan(steps[i]) || steps[i].Spawn?
    requires k.pc.Scanning? && Passed(k, id) && Run(k, steps).pc.ScanDone?
    requires id < k.nextTask && Asleep(k.queue, k.lost, k.tick, id, target) && target <= k.tick
    ensures !Queued(Run(k, steps).queue, id) && (id in Run(k, steps).lost ==> id in k.lost)
  {
    SleeperPassed(k, steps, id, target);
  }

  lemma {:induction false} RunGrows(k: Kernel, steps: seq<Step>)
    requires LegalRun(k, steps) && k.tick + Ticks(steps) < WORD
    ensures k.nextTask <= Run(k, steps).nextTask && Run(k, steps).tick == k.tick + Ticks(steps)
    decreases |steps|
  {
    hide Next;
    if steps != [] {
      NextGrows(k, steps[0]);
      RunGrows(Next(k, steps[0]), steps[1..]);
    }
  }

  /** From the spawn of a sleep to its end: whatever happens first, a scan that has not yet passed the
      task when the counter has reached `created + n` takes it out of the queue, and its parts are
      released just then (unless an earlier scan lost it). */
  lemma SleepEndsAfterTarget(k: Kernel, created: nat, n: nat, wakerMemory: bool, steps: seq<Step>, scan: seq<Step>)
    requires Inv(k) && created + n < WORD && k.tick + Ticks(steps) + Ticks(scan) < WORD
    requires var s := Spawn(Sleep(SleepTarget(created, n)), true, wakerMemory);
             && Enabled(k, s) && LegalRun(Next(k, s), steps)
             && var k1 := Run(Next(k, s), steps);
                && LegalRun(k1, scan) && k1.pc.Scanning? && Passed(k1, k.nextTask)
                && created + n <= k1.tick && Run(k1, scan).pc.ScanDone?
    requires forall i :: 0 <= i < |scan| ==> InScan(scan[i]) || scan[i].Spawn?
    ensures var s := Spawn(Sleep(SleepTarget(created, n)), true, wakerMemory);
            var t0 := Task(k.nextTask, s.future, false, if wakerMemory then Some(1) else None);
            var k1 := Run(Next(k, s), steps);
            var k2 := Run(k1, scan);
            && !Queued(k2.queue, t0.id)
            && (t0.id !in k1.lost ==> t0.id !in k2.lost && EventsOf(k2.log, t0.id) == RemovalEvents(t0))
  {
    hide Inv, LegalRun, Run, Next, Asleep, Owned, InScan, Passed, RemovalEvents, EventsOf;
    var s := Spawn(Sleep(SleepTarget(created, n)), true, wakerMemory);
    var t0 := Task(k.nextTask, s.future, false, if wakerMemory then Some(1) else None);
    NextKeepsInv(k, s);
    SpawnedSleep(k, created, n, wakerMemory);
    SleeperReleased(Next(k, s), steps, scan, t0, created + n);
  }

  lemma SleeperReleased(k: Kernel, steps: seq<Step>, scan: seq<Step>, t0: Task, target: nat)
    requires Inv(k) && LegalRun(k, steps) && k.tick + Ticks(steps) + Ticks(scan) < WORD && t0.id < k.nextTask
    requires Asleep(k.queue, k.lost, k.tick, t0.id, target) && Owned(k.queue, k.lost, k.log, t0)
    requires var k1 := Run(k, steps);
             && LegalRun(k1, scan) && k1.pc.Scanning? && Passed(k1, t0.id)
             && target <= k1.tick && Run(k1, scan).pc.ScanDone?
    requires forall i :: 0 <= i < |scan| ==> InScan(scan[i]) || scan[i].Spawn?
    ensures var k1 := Run(k, steps);
            var k2 := Run(k1, scan);
            && !Queued(k2.queue, t0.id)
            && (t0.id !in k1.lost ==> t0.id !in k2.lost && EventsOf(k2.log, t0.id) == RemovalEvents(t0))
  {
    hide Inv, LegalRun, Run, Next, Asleep, Owned, InScan, Passed, RemovalEvents, EventsOf, Queued;
    var k1 := Run(k, steps);
    RunKeepsInv(k, steps);
    RunGrows(k, steps);
    RunAsleep(k, steps, t0.id, target);
    RunOwned(k, steps, t0);
    RunOwned(k1, scan, t0);
    ScanRemovesSleeper(k1, scan, t0.id, target);
    if t0.id !in k1.lost {
      OwnedReleased(Run(k1, scan), t0);
    }
  }

  lemma OwnedReleased(k: Kernel, t0: Task)
    requires Owned(k.queue, k.lost, k.log, t0) && !Queued(k.queue, t0.id) && t0.id !in k.lost
    ensures EventsOf(k.log, t0.id) == RemovalEvents(t0)
  {
  }

  lemma SpawnedSleep(k: Kernel, created: nat, n: nat, wakerMemory: bool)
    requires Inv(k) && created + n < WORD && MaySpawn(k.pc)
    ensures var s := Spawn(Sleep(SleepTarget(created, n)), true, wakerMemory);
            var t0 := Task(k.nextTask, s.future, false, if wakerMemory then Some(1) else None);
            && Asleep(Next(k, s).queue, Next(k, s).lost, Next(k, s).tick, k.nextTask, created + n)
            && Owned(Next(k, s).queue, Next(k, s).lost, Next(k, s).log, t0)
            && Next(k, s).tick == k.tick && Next(k, s).nextTask == k.nextTask + 1
  {
    hide RemovalEvents;
    var s := Spawn(Sleep(SleepTarget(created, n)), true, wakerMemory);
    var k1 := Next(k, s);
    EventsOfNone(k.log, k.nextTask);
    assert k1.queue[0].id == k.nextTask;
    assert Queued(k1.queue, k.nextTask);
    assert forall t :: t in k1.queue ==> t == k1.queue[0] || t in k.queue;
  }

  // ---------------------------------------------------------------- a scan step by step

  /** The environments that the polls of a run see. */
  ghost function Envs(k: Kernel, steps: seq<Step>): seq<Env>
    requires LegalRun(k, steps)
    decreases |steps|
  {
    if steps == [] then []
    else
      (if steps[0].Poll? then [Env(k.tick, steps[0].transmitEmpty, steps[0].clockRead)] else []) +
      Envs(Next(k, steps[0]), steps[1..])
  }

  /** Part of a scan is done: the polled tasks `past` gave `r`, and `rest` is still to poll. */
  ghost predicate Midway(k: Kernel, before: Kernel, r: Scanned, rest: seq<Task>) {
    && k.pc.Scanning? && k.pc.pos == |r.kept| && (k.pc.pending <==> r.kept != [])
    && k.queue == r.kept + rest && k.out == before.out + r.out && k.log == before.log + r.log
  }

  lemma PollMidway(k: Kernel, s: Step, before: Kernel, past: seq<Task>, envs: seq<Env>, rest: seq<Task>)
    requires s.Poll? && Enabled(k, s) && |past| == |envs| && Midway(k, before, Scan(past, envs), rest)
    ensures rest != []
    ensures var env := Env(k.tick, s.transmitEmpty, s.clockRead);
            Midway(Next(k, s), before, Scan(past + [rest[0]], envs + [env]), rest[1..])
  {
    hide PollTask, RemovalEvents, Scan;
    var r, env := Scan(past, envs), Env(k.tick, s.transmitEmpty, s.clockRead);
    var p := PollTask(rest[0], env);
    assert k.queue[|r.kept|] == rest[0];
    ScanExtends(past, envs, rest[0], env);
    Spliced(r.kept, rest, p.task);
    Associates(before.out, r.out, p.out);
    Associates(before.log, r.log, RemovalEvents(p.task));
  }

  lemma OtherMidway(k: Kernel, s: Step, before: Kernel, r: Scanned, rest: seq<Task>)
    requires InScan(s) && !s.Poll? && !s.EndScan? && Enabled(k, s) && Midway(k, before, r, rest)
    ensures Midway(Next(k, s), before, r, rest)
  {
  }

  /** The polls of a scan, with any interrupts between them, do to the queue, to the serial port
      and to the record of releases exactly what `Scan` says for the environments seen. */
  lemma {:induction false} ScanStepsRefine(k: Kernel, steps: seq<Step>, before: Kernel,
                                           past: seq<Task>, envs: seq<Env>, rest: seq<Task>)
    requires LegalRun(k, steps) && |past| == |envs| && Midway(k, before, Scan(past, envs), rest)
    requires forall i :: 0 <= i < |steps| ==> InScan(steps[i]) && !steps[i].EndScan?
    ensures var m := |Envs(k, steps)|;
            m <= |rest| &&
            Midway(Run(k, steps), before, Scan(past + rest[..m], envs + Envs(k, steps)), rest[m..])
    decreases |steps|
  {
    hide Midway, Scan, Next, InScan;
    if steps == [] {
      assert past + rest[..0] == past && envs + [] == envs && rest[0..] == rest;
    } else {
      var s, k1 := steps[0], Next(k, steps[0]);
      if s.Poll? {
        var env := Env(k.tick, s.transmitEmpty, s.clockRead);
        PollMidway(k, s, before, past, envs, rest);
        ScanStepsRefine(k1, steps[1..], before, past + [rest[0]], envs + [env], rest[1..]);
        var m := |Envs(k1, steps[1..])|;
        ShiftMany(past, rest, m);
        Associates(envs, [env], Envs(k1, steps[1..]));
      } else {
        assert Envs(k, steps) == Envs(k1, steps[1..]);
        OtherMidway(k, s, before, Scan(past, envs), rest);
        ScanStepsRefine(k1, steps[1..], before, past, envs, rest);
      }
    }
  }

  /** A whole scan from the loop head: what it leaves in the queue, writes and releases is what
      `Scan` says, whatever interrupts came during it. */
  lemma WholeScanRefines(k: Kernel, steps: seq<Step>)
    requires k.pc == Scanning(0, false) && LegalRun(k, steps)
    requires forall i :: 0 <= i < |steps| ==> InScan(steps[i]) && !steps[i].EndScan?
    requires Enabled(Run(k, steps), EndScan)
    ensures |Envs(k, steps)| == |k.queue|
    ensures var r := Scan(k.queue, Envs(k, steps));
            var k' := Next(Run(k, steps), EndScan);
            && k'.queue == r.kept && k'.out == k.out + r.out && k'.log == k.log + r.log
  {
    hide Next, InScan, Run, LegalRun, Envs, Scan;
    NothingScanned();
    assert Midway(k, k, Scan([], []), k.queue);
    ScanStepsRefine(k, steps, k, [], [], k.queue);
    var m := |Envs(k, steps)|;
    assert [] + k.queue[..m] == k.queue[..m] && [] + Envs(k, steps) == Envs(k, steps);
    EndScanKeeps(Run(k, steps));
    assert k.queue[m..] == [] && k.queue[..m] == k.queue;
  }

  lemma EndScanKeeps(k: Kernel)
    requires Enabled(k, EndScan)
    ensures k.pc.Scanning? && |k.queue| <= k.pc.pos
    ensures var k' := Next(k, EndScan); k'.queue == k.queue && k'.out == k.out && k'.log == k.log
  {
  }

  // ---------------------------------------------------------------- one turn of the loop

  /** An interrupt, or the addition of a wake-up entry. */
  predicate Outside(s: Step) {
    s.Tick? || s.SerialInterrupt? || s.AddEntry?
  }

  /** Some step of the run asks for a poll. */
  ghost predicate Woken(k: Kernel, steps: seq<Step>)
    requires LegalRun(k, steps)
    decreases |steps|
  {
    steps != [] && (Wakes(k, steps[0]) || Woken(Next(k, steps[0]), steps[1..]))
  }

  lemma FlagStep(k: Kernel, s: Step)
    requires Enabled(k, s) && (s.BeginScan? || InScan(s))
    ensures Next(k, s).shouldPoll <==> k.shouldPoll || Wakes(k, s)
  {
    hide PollTask, RemovalEvents, Waiting, Fires;
    if s.Tick? {
      TickWakesExecutor(k);
    }
  }

  lemma {:induction false} FlagRun(k: Kernel, steps: seq<Step>)
    requires LegalRun(k, steps) && forall i :: 0 <= i < |steps| ==> steps[i].BeginScan? || InScan(steps[i])
    ensures Run(k, steps).shouldPoll <==> k.shouldPoll || Woken(k, steps)
    decreases |steps|
  {
    hide Next, Wakes, InScan;
    if steps != [] {
      FlagStep(k, steps[0]);
      FlagRun(Next(k, steps[0]), steps[1..]);
    }
  }

  lemma {:induction false} OutsideKeeps(k: Kernel, steps: seq<Step>)
    requires LegalRun(k, steps) && !k.pc.Halted? && forall i :: 0 <= i < |steps| ==> Outside(steps[i])
    ensures var k' := Run(k, steps);
            k'.pc == k.pc && k'.queue == k.queue && k'.out == k.out && k'.log == k.log
    ensures Run(k, steps).shouldPoll <==> k.shouldPoll || Woken(k, steps)
    decreases |steps|
  {
    hide Waiting, Fires, Wakes;
    if steps != [] {
      FlagStep(k, steps[0]);
      OutsideKeeps(Next(k, steps[0]), steps[1..]);
    }
  }

  /** How far the turn that started in `k`, with `envs` seen by its polls, has come in `c`. */
  ghost predicate TurnSoFar(k: Kernel, c: Kernel, envs: seq<Env>) {
    match c.pc
    case Head => envs == [] && c.queue == k.queue && c.out == k.out && c.log == k.log
    case Scanning(_, _) =>
      |envs| <= |k.queue| && Midway(c, k, Scan(k.queue[..|envs|], envs), k.queue[|envs|..])
    case ScanDone(pending) =>
      |envs| == |k.queue| && TurnDone(k, c, Scan(k.queue, envs)) && (pending <==> c.queue != [])
    case _ => false
  }

  /** What the scan of a turn has done once it is over. */
  ghost predicate TurnDone(k: Kernel, c: Kernel, r: Scanned) {
    c.queue == r.kept && c.out == k.out + r.out && c.log == k.log + r.log
  }

  lemma TurnStep(k: Kernel, c: Kernel, envs: seq<Env>, s: Step)
    requires TurnSoFar(k, c, envs) && Enabled(c, s) && (s.BeginScan? || InScan(s))
    ensures TurnSoFar(k, Next(c, s), envs + if s.Poll? then [Env(c.tick, s.transmitEmpty, s.clockRead)] else [])
  {
    hide Scan, PollTask, RemovalEvents, Waiting, Fires, Midway;
    var m := |envs|;
    assert envs + [] == envs;
    if s.Poll? {
      TurnPoll(k, c, envs, s);
    } else if s.BeginScan? {
      TurnBegins(k, c);
    } else if s.EndScan? {
      TurnEnds(k, c, envs);
    } else if c.pc.Scanning? {
      OtherMidway(c, s, k, Scan(k.queue[..m], envs), k.queue[m..]);
      assert Midway(Next(c, s), k, Scan(k.queue[..m], envs), k.queue[m..]);
      MidwayScanning(Next(c, s), k, Scan(k.queue[..m], envs), k.queue[m..]);
    }
  }

  lemma MidwayScanning(c: Kernel, k: Kernel, r: Scanned, rest: seq<Task>)
    requires Midway(c, k, r, rest)
    ensures c.pc.Scanning?
  {
  }

  lemma TurnPoll(k: Kernel, c: Kernel, envs: seq<Env>, s: Step)
    requires c.pc.Scanning? && TurnSoFar(k, c, envs) && s.Poll? && Enabled(c, s)
    ensures TurnSoFar(k, Next(c, s), envs + [Env(c.tick, s.transmitEmpty, s.clockRead)])
  {
    hide Scan, Next, Midway;
    var m := |envs|;
    PollMidway(c, s, k, k.queue[..m], envs, k.queue[m..]);
    assert k.queue[..m] + [k.queue[m..][0]] == k.queue[..m + 1] && k.queue[m..][1..] == k.queue[m + 1..];
    var envs' := envs + [Env(c.tick, s.transmitEmpty, s.clockRead)];
    assert Midway(Next(c, s), k, Scan(k.queue[..m + 1], envs'), k.queue[m + 1..]);
    MidwayScanning(Next(c, s), k, Scan(k.queue[..m + 1], envs'), k.queue[m + 1..]);
  }

  lemma TurnBegins(k: Kernel, c: Kernel)
    requires c.pc.Head? && TurnSoFar(k, c, [])
    ensures TurnSoFar(k, Next(c, BeginScan), [])
  {
    hide Scan;
    NothingScanned();
    assert k.queue[..0] == [] && k.queue[0..] == k.queue && [] + k.queue == k.queue;
    assert k.out + [] == k.out && k.log + [] == k.log;
  }

  lemma TurnEnds(k: Kernel, c: Kernel, envs: seq<Env>)
    requires c.pc.Scanning? && TurnSoFar(k, c, envs) && Enabled(c, EndScan)
    ensures TurnSoFar(k, Next(c, EndScan), envs)
  {
    hide Scan;
    var m := |envs|;
    assert k.queue[m..] == [] && k.queue[..m] == k.queue;
    assert Scan(k.queue, envs).kept + [] == Scan(k.queue, envs).kept;
  }

  lemma {:induction false} TurnRun(k: Kernel, c: Kernel, envs: seq<Env>, steps: seq<Step>)
    requires TurnSoFar(k, c, envs) && LegalRun(c, steps)
    requires forall i :: 0 <= i < |steps| ==> steps[i].BeginScan? || InScan(steps[i])
    ensures TurnSoFar(k, Run(c, steps), envs + Envs(c, steps))
    decreases |steps|
  {
    hide TurnSoFar, Next, InScan;
    if steps == [] {
      assert envs + [] == envs;
    } else {
      var s := steps[0];
      var seen := if s.Poll? then [Env(c.tick, s.transmitEmpty, s.clockRead)] else [];
      TurnStep(k, c, envs, s);
      TurnRun(k, Next(c, s), envs + seen, steps[1..]);
      Associates(envs, seen, Envs(Next(c, s), steps[1..]));
    }
  }

  /** One turn of the loop, from its head, with interrupts at any points: `before` leads to the load
      of the flag and `late` comes between the load and the act. The turn does to queue, port and
      releases what `Scan` says; it halts exactly when no task is left, the flag was clear and
      nothing asked for a poll before the load; otherwise it is back at the head with the flag
      clear. A request after the load survives exactly a halt. These are the promises of
      `Executor.RunOnce`. */
  lemma TurnIsRunOnce(k: Kernel, before: seq<Step>, late: seq<Step>)
    requires k.pc.Head? && LegalRun(k, before) && Run(k, before).pc.ScanDone?
    requires forall i :: 0 <= i < |before| ==> before[i].BeginScan? || InScan(before[i])
    requires LegalRun(Next(Run(k, before), LoadFlag), late)
    requires forall i :: 0 <= i < |late| ==> Outside(late[i])
    ensures |Envs(k, before)| == |k.queue|
    ensures var loaded := Next(Run(k, before), LoadFlag);
            var acting := Run(loaded, late);
            Enabled(acting, HaltOrReset) &&
            var k' := Next(acting, HaltOrReset);
            var r := Scan(k.queue, Envs(k, before));
            var halted := r.kept == [] && !k.shouldPoll && !Woken(k, before);
            && k'.queue == r.kept && k'.out == k.out + r.out && k'.log == k.log + r.log
            && k'.pc == (if halted then Halted else Head)
            && (k'.shouldPoll <==> halted && Woken(loaded, late))
  {
    hide LegalRun, Run, Envs, Scan, InScan, Outside, Woken;
    assert TurnSoFar(k, k, []);
    TurnRun(k, k, [], before);
    assert [] + Envs(k, before) == Envs(k, before);
    FlagRun(k, before);
    OutsideKeeps(Next(Run(k, before), LoadFlag), late);
  }

  /** Left alone with an empty queue, the executor halts in its next three steps if the flag is clear,
      and in its next six otherwise. */
  lemma IdleExecutorHalts(k: Kernel)
    requires k.pc.Head? && k.queue == []
    ensures var turn := [BeginScan, LoadFlag, HaltOrReset];
            && LegalRun(k, turn) && Run(k, turn).pc == (if k.shouldPoll then Head else Halted)
            && (k.shouldPoll ==> LegalRun(k, turn + turn) && Run(k, turn + turn).pc.Halted?)
  {
    var turn := [BeginScan, LoadFlag, HaltOrReset];
    ThreeSteps(k, []);
    assert turn + [] == turn;
    if k.shouldPoll {
      var k' := Next(Next(Next(k, BeginScan), LoadFlag), HaltOrReset);
      ThreeSteps(k', []);
      ThreeSteps(k, turn);
    }
  }

  lemma ThreeSteps(k: Kernel, rest: seq<Step>)
    requires k.pc.Head? && k.queue == []
    requires LegalRun(Next(Next(Next(k, BeginScan), LoadFlag), HaltOrReset), rest)
    ensures var all := [BeginScan, LoadFlag, HaltOrReset] + rest;
            && LegalRun(k, all)
            && Run(k, all) == Run(Next(Next(Next(k, BeginScan), LoadFlag), HaltOrReset), rest)
  {
    var all := [BeginScan, LoadFlag, HaltOrReset] + rest;
    var k1 := Next(k, BeginScan);
    var k2 := Next(k1, LoadFlag);
    assert all[1..][1..][1..] == rest;
    assert LegalRun(k2, all[1..][1..]) && Run(k2, all[1..][1..]) == Run(Next(k2, HaltOrReset), rest);
    assert LegalRun(k1, all[1..]) && Run(k1, all[1..]) == Run(k2, all[1..][1..]);
  }

  // ---------------------------------------------------------------- what tasks write

  /** The bytes that a step adds to the serial port, if it is a poll of task `id`. */
  function Added(k: Kernel, s: Step, id: nat): seq<byte>
    requires Enabled(k, s)
  {
    if s.Poll? && k.queue[k.pc.pos].id == id then Next(k, s).out[|k.out|..] else []
  }

  /** The bytes that task `id` adds to the serial port in a run. */
  ghost function Sent(k: Kernel, steps: seq<Step>, id: nat): seq<byte>
    requires LegalRun(k, steps)
    decreases |steps|
  {
    if steps == [] then [] else Added(k, steps[0], id) + Sent(Next(k, steps[0]), steps[1..], id)
  }

  /** How many polls of task `id` in a run find the transmitter empty. */
  ghost function Chances(k: Kernel, steps: seq<Step>, id: nat): nat
    requires LegalRun(k, steps)
    decreases |steps|
  {
    if steps == [] then 0
    else
      (if steps[0].Poll? && k.queue[k.pc.pos].id == id && steps[0].transmitEmpty then 1 else 0) +
      Chances(Next(k, steps[0]), steps[1..], id)
  }

  /** Task `id` has written the first `w` bytes of its data: it is still queued, or lost, with the
      rest to write, or it has left the queue with everything written. */
  ghost predicate Writing(queue: seq<Task>, lost: set<nat>, id: nat, data: seq<byte>, w: nat) {
    && w <= |data|
    && (forall t :: t in queue && t.id == id ==> t.future == SerialWrite(data, w) && !t.completed)
    && if Queued(queue, id) || id in lost then w < |data| || data == [] else w == |data|
  }

  lemma NextWriting(k: Kernel, s: Step, id: nat, data: seq<byte>, w: nat)
    requires Inv(k) && Enabled(k, s) && id < k.nextTask && Writing(k.queue, k.lost, id, data, w)
    ensures var b := Added(k, s, id);
            && w + |b| <= |data| && b == data[w..w + |b|]
            && Writing(Next(k, s).queue, Next(k, s).lost, id, data, w + |b|)
            && (data != [] ==> |b| == if s.Poll? && k.queue[k.pc.pos].id == id && s.transmitEmpty then 1 else 0)
  {
    hide PollTask, RemovalEvents, Ids, Waiting, Fires;
    match s
    case Poll(_, _) => PollAdds(k, s, id, data, w);
    case Spawn(_, taskMemory, _) =>
      if taskMemory {
        PushedQueue(k.queue, Next(k, s).queue[0], id);
      }
    case _ =>
  }

  lemma PollAdds(k: Kernel, s: Step, id: nat, data: seq<byte>, w: nat)
    requires Inv(k) && s.Poll? && Enabled(k, s) && Writing(k.queue, k.lost, id, data, w)
    ensures var b := Added(k, s, id);
            && w + |b| <= |data| && b == data[w..w + |b|]
            && Writing(Next(k, s).queue, Next(k, s).lost, id, data, w + |b|)
            && (data != [] ==> |b| == if k.queue[k.pc.pos].id == id && s.transmitEmpty then 1 else 0)
  {
    hide PollTask, RemovalEvents, Ids, UniqueTasks, UniqueEntries, LostApart, KnownEvents, Writing;
    var i, env := k.pc.pos, Env(k.tick, s.transmitEmpty, s.clockRead);
    var t := k.queue[i];
    WritingBound(k.queue, k.lost, id, data, w);
    if t.id == id {
      WritingAt(k.queue, k.lost, i, data, w);
    }
    PollAdvances(t, env);
    assert Next(k, s).out[|k.out|..] == PollTask(t, env).out;
    PollWriting(k.queue, k.lost, k.nextTask, Link(k.pc), i, PollTask(t, env), id, data, w);
  }

  lemma WritingAt(queue: seq<Task>, lost: set<nat>, i: nat, data: seq<byte>, w: nat)
    requires i < |queue| && Writing(queue, lost, queue[i].id, data, w)
    ensures queue[i].future == SerialWrite(data, w) && !queue[i].completed && (w < |data| || data == [])
  {
    assert queue[i] in queue && Queued(queue, queue[i].id);
  }

  lemma PollWriting(queue: seq<Task>, lost: set<nat>, next: nat, link: nat, i: nat, p: Polled,
                    id: nat, data: seq<byte>, w: nat)
    requires UniqueTasks(queue, next) && LostApart(queue, lost, next) && link <= i < |queue|
    requires p.task.id == queue[i].id && Writing(queue, lost, id, data, w)
    requires p.task.id == id ==>
               && w + |p.out| <= |data| && p.task.future == SerialWrite(data, w + |p.out|)
               && p.task.completed == p.ready && (p.ready <==> w + |p.out| == |data|)
    ensures var w' := if p.task.id == id then w + |p.out| else w;
            if p.ready then Writing(queue[..link] + queue[i + 1..], lost + Ids(queue[link..i]), id, data, w')
            else Writing(queue[i := p.task], lost, id, data, w')
  {
    hide Ids;
    if p.ready {
      RemovedQueue(queue, next, link, i, id);
      GoneFromQueue(queue, next, link, i);
    } else {
      PolledQueue(queue, i, p.task, id);
      assert forall x :: x in queue[i := p.task] ==> x == p.task || (x in queue && x.id != queue[i].id);
    }
  }

  lemma GoneFromQueue(queue: seq<Task>, next: nat, link: nat, i: nat)
    requires UniqueTasks(queue, next) && link <= i < |queue|
    ensures forall t :: t in queue[..link] + queue[i + 1..] ==> t in queue && t.id != queue[i].id
  {
  }

  lemma WritingBound(queue: seq<Task>, lost: set<nat>, id: nat, data: seq<byte>, w: nat)
    requires Writing(queue, lost, id, data, w)
    ensures w <= |data|
  {
  }

  lemma {:induction false} RunWriting(k: Kernel, steps: seq<Step>, id: nat, data: seq<byte>, w: nat)
    requires Inv(k) && LegalRun(k, steps) && id < k.nextTask && Writing(k.queue, k.lost, id, data, w)
    ensures var b := Sent(k, steps, id);
            && w + |b| <= |data| && b == data[w..w + |b|]
            && Writing(Run(k, steps).queue, Run(k, steps).lost, id, data, w + |b|)
            && (data != [] ==> |b| == Chances(k, steps, id))
    decreases |steps|
  {
    hide Writing, Inv, Next, Added;
    if steps == [] {
      WritingBound(k.queue, k.lost, id, data, w);
    } else {
      var b := Added(k, steps[0], id);
      NextGrows(k, steps[0]);
      NextKeepsInv(k, steps[0]);
      NextWriting(k, steps[0], id, data, w);
      RunWriting(Next(k, steps[0]), steps[1..], id, data, w + |b|);
    }
  }

  /** Every serial write, over every run: the bytes its task adds to the port are the first `w` bytes
      of the data, each once and in order, one for each poll that found the transmitter empty; and
      the task is removed exactly when all of them are out. */
  lemma SerialTaskWritesInOrder(k: Kernel, data: seq<byte>, wakerMemory: bool, steps: seq<Step>)
    requires Inv(k) && Enabled(k, Spawn(SerialWrite(data, 0), true, wakerMemory))
    requires LegalRun(Next(k, Spawn(SerialWrite(data, 0), true, wakerMemory)), steps)
    ensures var id := k.nextTask;
            var k0 := Next(k, Spawn(SerialWrite(data, 0), true, wakerMemory));
            var k' := Run(k0, steps);
            var w := |Sent(k0, steps, id)|;
            && w <= |data| && Sent(k0, steps, id) == data[..w]
            && (data != [] ==> w == Chances(k0, steps, id))
            && (data != [] ==> (Queued(k'.queue, id) || id in k'.lost <==> w < |data|))
            && (Queued(k'.queue, id) || id in k'.lost || w == |data|)
  {
    hide Inv, Next, LegalRun, Run, Sent, Chances;
    var s := Spawn(SerialWrite(data, 0), true, wakerMemory);
    NextKeepsInv(k, s);
    SpawnedWriting(k, data, wakerMemory);
    RunWriting(Next(k, s), steps, k.nextTask, data, 0);
  }

  lemma SpawnedWriting(k: Kernel, data: seq<byte>, wakerMemory: bool)
    requires Inv(k) && Enabled(k, Spawn(SerialWrite(data, 0), true, wakerMemory))
    ensures var k0 := Next(k, Spawn(SerialWrite(data, 0), true, wakerMemory));
            Writing(k0.queue, k0.lost, k.nextTask, data, 0) && k0.nextTask == k.nextTask + 1
  {
    hide UniqueEntries, KnownEvents;
    var k0 := Next(k, Spawn(SerialWrite(data, 0), true, wakerMemory));
    assert k0.queue[0].id == k.nextTask;
    assert Queued(k0.queue, k.nextTask);
    assert forall t :: t in k0.queue ==> t == k0.queue[0] || t in k.queue;
  }

  /** Every other task writes nothing, in any run. */
  lemma {:induction false} OthersWriteNothing(k: Kernel, steps: seq<Step>, t0: Task)
    requires Inv(k) && LegalRun(k, steps) && t0.id < k.nextTask && Owned(k.queue, k.lost, k.log, t0)
    requires !t0.future.SerialWrite?
    ensures Sent(k, steps, t0.id) == []
    decreases |steps|
  {
    hide Inv, Next, Owned, Added;
    if steps != [] {
      NextGrows(k, steps[0]);
      NextKeepsInv(k, steps[0]);
      NextOwned(k, steps[0], t0);
      NothingAdded(k, steps[0], t0);
      OthersWriteNothing(Next(k, steps[0]), steps[1..], t0);
    }
  }

  lemma NothingAdded(k: Kernel, s: Step, t0: Task)
    requires Enabled(k, s) && Owned(k.queue, k.lost, k.log, t0) && !t0.future.SerialWrite?
    ensures Added(k, s, t0.id) == []
  {
    if s.Poll? && k.queue[k.pc.pos].id == t0.id {
      assert SameTask(k.queue[k.pc.pos], t0);
      PollAdvances(k.queue[k.pc.pos], Env(k.tick, s.transmitEmpty, s.clockRead));
    }
  }

  /** The bytes that the polls of a run add, in order. */
  ghost function Written(k: Kernel, steps: seq<Step>): seq<byte>
    requires LegalRun(k, steps)
    decreases |steps|
  {
    if steps == [] then []
    else
      (if steps[0].Poll? then Added(k, steps[0], k.queue[k.pc.pos].id) else []) +
      Written(Next(k, steps[0]), steps[1..])
  }

  lemma StepWrites(k: Kernel, s: Step)
    requires Enabled(k, s)
    ensures Next(k, s).out == k.out + if s.Poll? then Added(k, s, k.queue[k.pc.pos].id) else []
  {
    hide PollTask, RemovalEvents, Waiting, Fires;
  }

  /** Nothing but the polls of tasks writes to the port. */
  lemma {:induction false} OnlyPollsWrite(k: Kernel, steps: seq<Step>)
    requires LegalRun(k, steps)
    ensures Run(k, steps).out == k.out + Written(k, steps)
    decreases |steps|
  {
    hide Next, Added;
    if steps == [] {
      assert k.out + [] == k.out;
    } else {
      var s, k1 := steps[0], Next(k, steps[0]);
      var b := if s.Poll? then Added(k, s, k.queue[k.pc.pos].id) else [];
      StepWrites(k, s);
      OnlyPollsWrite(k1, steps[1..]);
      Associates(k.out, b, Written(k1, steps[1..]));
    }
  }
}
