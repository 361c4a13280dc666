/** What the scan loop does when tasks are spawned while it runs, as an interrupt handler or a
    poll function would. */
module SpawnInScan {
  import opened Tasks
  import K = KernelRuns

  /** The scan loop's view of the queue. `at` is the position of the current task and `link` that of
      the task which the word behind `prev_ptr` points at; the two differ after a spawn that moved
      the head while `prev_ptr` is still the address of the head. */
  datatype Cursor = Cursor(queue: seq<Task>, count: int, link: nat, at: nat)

  /** A spawn before the poll of the current task is over, or the end of that poll. */
  datatype Move = Spawned(task: Task) | Polled(env: Env)

  function Start(tasks: seq<Task>): Cursor {
    Cursor(tasks, |tasks|, 0, 0)
  }

  /** A new head: a `prev_ptr` inside a task keeps pointing at the current one, while the address of
      the head now points at the new task. */
  function AfterSpawn(c: Cursor, task: Task): Cursor {
    Cursor([task] + c.queue, c.count + 1, if c.link == 0 then 0 else c.link + 1, c.at + 1)
  }

  /** A ready task is removed by storing its successor behind `prev_ptr`. */
  function AfterPoll(c: Cursor, env: Env): Cursor
    requires c.link <= c.at < |c.queue|
  {
    var p := PollTask(c.queue[c.at], env);
    if p.ready then Cursor(c.queue[..c.link] + c.queue[c.at + 1..], c.count - 1, c.link, c.link)
    else Cursor(c.queue[c.at := p.task], c.count, c.at + 1, c.at + 1)
  }

  /** The loop ends when there is no current task. */
  function Run(tasks: seq<Task>, moves: seq<Move>): Cursor {
    if moves == [] then Start(tasks)
    else
      var n := |moves| - 1;
      var c := Run(tasks, moves[..n]);
      match moves[n]
      case Spawned(task) => AfterSpawn(c, task)
      case Polled(env) => if c.link <= c.at < |c.queue| then AfterPoll(c, env) else c
  }

  function Envs(moves: seq<Move>): seq<Env> {
    if moves == [] then []
    else
      var n := |moves| - 1;
      Envs(moves[..n]) + if moves[n].Polled? then [moves[n].env] else []
  }

  function Spawns(moves: seq<Move>): nat {
    if moves == [] then 0
    else
      var n := |moves| - 1;
      Spawns(moves[..n]) + if moves[n].Spawned? then 1 else 0
  }

  /** What the polls among the moves would do to a queue nobody adds to. */
  function Plain(tasks: seq<Task>, moves: seq<Move>): seq<Task>
    requires |Envs(moves)| <= |tasks|
  {
    Scan(tasks[..|Envs(moves)|], Envs(moves)).kept
  }

  /** The spawned tasks still queued, latest first: each ready poll before which no poll of the scan
      left a task pending loses all of them. */
  function Fronts(tasks: seq<Task>, moves: seq<Move>): seq<Task>
    requires |Envs(moves)| <= |tasks|
  {
    if moves == [] then []
    else
      var n := |moves| - 1;
      if moves[n].Spawned? then [moves[n].task] + Fronts(tasks, moves[..n])
      else if Plain(tasks, moves) == [] then []
      else Fronts(tasks, moves[..n])
  }

  /** Where a scan with spawns stands: the surviving spawned tasks, what the scan kept of the old
      queue, and the tasks still to poll. */
  ghost predicate Stands(c: Cursor, fronts: seq<Task>, kept: seq<Task>, rest: seq<Task>, lost: int) {
    && c.queue == fronts + kept + rest && c.at == |fronts| + |kept|
    && c.link == (if kept == [] then 0 else c.at)
    && c.count == |c.queue| + lost
  }

  lemma SpawnStands(c: Cursor, task: Task, fronts: seq<Task>, kept: seq<Task>, rest: seq<Task>, lost: int)
    requires Stands(c, fronts, kept, rest, lost)
    ensures Stands(AfterSpawn(c, task), [task] + fronts, kept, rest, lost)
  {
    assert [task] + (fronts + kept + rest) == [task] + fronts + kept + rest;
  }

  lemma PollStands(c: Cursor, env: Env, fronts: seq<Task>, kept: seq<Task>, rest: seq<Task>, lost: int)
    requires Stands(c, fronts, kept, rest, lost) && rest != []
    ensures c.link <= c.at < |c.queue|
    ensures var p := PollTask(rest[0], env);
            var c' := AfterPoll(c, env);
            && (!p.ready ==> Stands(c', fronts, kept + [p.task], rest[1..], lost))
            && (p.ready && kept != [] ==> Stands(c', fronts, kept, rest[1..], lost))
            && (p.ready && kept == [] ==> Stands(c', [], [], rest[1..], lost + |fronts|))
  {
    hide PollTask;
    var p := PollTask(rest[0], env);
    assert c.queue[c.at] == rest[0];
    assert c.queue[c.at + 1..] == rest[1..];
    assert kept != [] ==> c.queue[..c.link] + rest[1..] == fronts + kept + rest[1..];
    assert c.queue[c.at := p.task] == fronts + (kept + [p.task]) + rest[1..];
  }

  lemma PlainWithout(tasks: seq<Task>, moves: seq<Move>)
    requires moves != [] && moves[|moves| - 1].Spawned? && |Envs(moves)| <= |tasks|
    ensures Envs(moves) == Envs(moves[..|moves| - 1])
    ensures Plain(tasks, moves) == Plain(tasks, moves[..|moves| - 1])
  {
    hide Scan;
  }

  lemma PlainExtends(tasks: seq<Task>, moves: seq<Move>)
    requires moves != [] && moves[|moves| - 1].Polled? && |Envs(moves)| <= |tasks|
    ensures var before := moves[..|moves| - 1];
            var m := |Envs(before)|;
            && |Envs(moves)| == m + 1
            && var p := PollTask(tasks[m], moves[|moves| - 1].env);
               Plain(tasks, moves) == if p.ready then Plain(tasks, before) else Plain(tasks, before) + [p.task]
  {
    hide PollTask;
    var before := moves[..|moves| - 1];
    var m := |Envs(before)|;
    ScanExtends(tasks[..m], Envs(before), tasks[m], moves[|moves| - 1].env);
    assert tasks[..m + 1] == tasks[..m] + [tasks[m]];
  }

  /** A scan during which tasks are spawned, at any points: the old tasks are polled once each, kept
      or removed just as without the spawns; in front of them are the spawned tasks that survive;
      and the counter exceeds the length of the queue by the number of those lost. */
  lemma {:induction false} ScanWithSpawns(tasks: seq<Task>, moves: seq<Move>)
    requires |Envs(moves)| <= |tasks|
    ensures Stands(Run(tasks, moves), Fronts(tasks, moves), Plain(tasks, moves), tasks[|Envs(moves)|..],
                   Spawns(moves) - |Fronts(tasks, moves)|)
    decreases |moves|
  {
    hide PollTask, Stands, Plain, Envs, AfterPoll, AfterSpawn;
    if moves == [] {
      EmptyStands(tasks);
    } else {
      var n := |moves| - 1;
      var m := |Envs(moves[..n])|;
      EnvsShrink(moves);
      ScanWithSpawns(tasks, moves[..n]);
      var c, f, kept := Run(tasks, moves[..n]), Fronts(tasks, moves[..n]), Plain(tasks, moves[..n]);
      var lost := Spawns(moves[..n]) - |f|;
      match moves[n]
      case Spawned(task) =>
        PlainWithout(tasks, moves);
        SpawnStands(c, task, f, kept, tasks[m..], lost);
      case Polled(env) =>
        PlainExtends(tasks, moves);
        PollStands(c, env, f, kept, tasks[m..], lost);
        assert tasks[m..][1..] == tasks[m + 1..];
    }
  }

  lemma EmptyStands(tasks: seq<Task>)
    ensures Envs([]) == []
    ensures Stands(Run(tasks, []), Fronts(tasks, []), Plain(tasks, []), tasks[0..], 0)
  {
    NothingScanned();
    assert [] + [] + tasks[0..] == tasks;
  }

  /** Some task was spawned before a ready poll that no pending poll of the scan precedes. */
  ghost predicate SpawnedTooEarly(tasks: seq<Task>, moves: seq<Move>)
    requires |Envs(moves)| <= |tasks|
  {
    exists i, j :: 0 <= i < j < |moves| && moves[i].Spawned? && Leading(tasks, moves, j)
  }

  /** Move `j` ends a poll, and that poll and all before it in the scan were ready. */
  ghost predicate Leading(tasks: seq<Task>, moves: seq<Move>, j: nat)
    requires |Envs(moves)| <= |tasks| && j < |moves|
  {
    moves[j].Polled? && |Envs(moves[..j + 1])| <= |tasks| && Plain(tasks, moves[..j + 1]) == []
  }

  lemma {:induction false} SpawnExists(moves: seq<Move>)
    ensures Spawns(moves) > 0 <==> exists i :: 0 <= i < |moves| && moves[i].Spawned?
    decreases |moves|
  {
    if moves != [] {
      var n := |moves| - 1;
      SpawnExists(moves[..n]);
      if moves[n].Polled? && Spawns(moves[..n]) > 0 {
        var i :| 0 <= i < n && moves[..n][i].Spawned?;
        assert moves[i].Spawned?;
      }
    }
  }

  /** Whether a spawn came too early is settled by the earlier moves and the last one. */
  lemma TooEarlyExtends(tasks: seq<Task>, moves: seq<Move>)
    requires moves != [] && |Envs(moves)| <= |tasks|
    ensures var n := |moves| - 1;
            SpawnedTooEarly(tasks, moves) <==>
              SpawnedTooEarly(tasks, moves[..n]) || (Spawns(moves[..n]) > 0 && Leading(tasks, moves, n))
  {
    hide Leading, Envs;
    var n := |moves| - 1;
    var before := moves[..n];
    EnvsShrink(moves);
    forall j | 0 <= j < n
      ensures Leading(tasks, moves, j) <==> Leading(tasks, before, j)
    {
      LeadingPrefix(tasks, moves, j);
    }
    SpawnExists(before);
    if SpawnedTooEarly(tasks, moves) {
      var i, j :| 0 <= i < j < |moves| && moves[i].Spawned? && Leading(tasks, moves, j);
      assert before[i].Spawned?;
    }
    if SpawnedTooEarly(tasks, before) {
      var i, j :| 0 <= i < j < n && before[i].Spawned? && Leading(tasks, before, j);
      assert moves[i].Spawned? && Leading(tasks, moves, j);
    }
    if Spawns(before) > 0 && Leading(tasks, moves, n) {
      var i :| 0 <= i < n && before[i].Spawned?;
      assert moves[i].Spawned?;
    }
  }

  lemma EnvsShrink(moves: seq<Move>)
    requires moves != []
    ensures |Envs(moves[..|moves| - 1])| <= |Envs(moves)|
  {
  }

  lemma LeadingPrefix(tasks: seq<Task>, moves: seq<Move>, j: nat)
    requires |Envs(moves)| <= |tasks| && j + 1 < |moves| && |Envs(moves[..|moves| - 1])| <= |tasks|
    ensures Leading(tasks, moves, j) <==> Leading(tasks, moves[..|moves| - 1], j)
  {
    hide Plain, Envs;
    assert moves[..|moves| - 1][..j + 1] == moves[..j + 1];
  }

  lemma NoneTooEarly(tasks: seq<Task>)
    ensures !SpawnedTooEarly(tasks, [])
  {
  }

  lemma {:induction false} LostExactly(tasks: seq<Task>, moves: seq<Move>)
    requires |Envs(moves)| <= |tasks|
    ensures |Fronts(tasks, moves)| <= Spawns(moves)
    ensures |Fronts(tasks, moves)| < Spawns(moves) <==> SpawnedTooEarly(tasks, moves)
    decreases |moves|
  {
    hide Plain, SpawnedTooEarly;
    if moves == [] {
      NoneTooEarly(tasks);
    } else {
      var n := |moves| - 1;
      assert moves[..n + 1] == moves;
      LostExactly(tasks, moves[..n]);
      TooEarlyExtends(tasks, moves);
    }
  }

  /** A scan with spawns keeps the counter equal to the length of the queue, and every spawned task
      in the queue, if and only if no task is spawned before a ready poll that no pending poll of
      the same scan precedes. */
  lemma CountRightExactly(tasks: seq<Task>, moves: seq<Move>)
    requires |Envs(moves)| <= |tasks|
    ensures var c := Run(tasks, moves);
            && (c.count == |c.queue| <==> !SpawnedTooEarly(tasks, moves))
            && (|c.queue| == |Plain(tasks, moves)| + |tasks[|Envs(moves)|..]| + Spawns(moves)
                <==> !SpawnedTooEarly(tasks, moves))
  {
    hide Run, Plain, Fronts, SpawnedTooEarly;
    ScanWithSpawns(tasks, moves);
    LostExactly(tasks, moves);
  }

  /** What the kernel's run keeps of the cursor. */
  function CursorOf(k: K.Kernel): Cursor
    requires k.pc.Scanning?
  {
    Cursor(k.queue, k.taskCount, K.Link(k.pc), k.pc.pos)
  }

  /** The spawns and polls of every kernel run, during a scan, are those of the cursor. */
  lemma KernelFollowsCursor(k: K.Kernel, s: K.Step)
    requires K.Inv(k) && k.pc.Scanning? && K.Enabled(k, s)
    requires s.Poll? || (s.Spawn? && s.taskMemory)
    ensures var k' := K.Next(k, s);
            && k'.pc.Scanning?
            && CursorOf(k') == if s.Poll? then AfterPoll(CursorOf(k), Env(k.tick, s.transmitEmpty, s.clockRead))
                               else AfterSpawn(CursorOf(k), k'.queue[0])
  {
    hide PollTask, RemovalEvents, K.UniqueTasks, K.UniqueEntries, K.LostApart, K.KnownEvents, K.Ids;
  }
}
