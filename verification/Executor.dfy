/** The two lists that the kernel edits in place: the wake-up list checked by the clock
    interrupt, and the task queue scanned by the executor. */
module Executor {
  import opened Words
  import opened Chains
  import opened Sequences
  import opened Tasks

  lemma NothingChecked(tick: nat)
    ensures Waiting([], tick) == [] && Firing([], tick) == []
  {
  }

  class WakeUpList {
    const chain: Chain<Entry>
    var entryCount: nat

    ghost predicate Valid()
      reads this, chain, chain.repr
    {
      chain.Valid() && entryCount == |chain.items|
    }

    constructor ()
      ensures Valid() && chain.items == [] && fresh(chain) && fresh(chain.repr)
    {
      chain := new Chain<Entry>();
      entryCount := 0;
    }

    /** `wake_up_list_add`: without memory for the entry nothing changes. */
    method Add(entry: Entry, memory: bool)
      requires Valid()
      modifies this, chain
      ensures Valid() && fresh(chain.repr - old(chain.repr))
      ensures chain.items == (if memory then [entry] else []) + old(chain.items)
    {
      if memory {
        chain.PushFront(entry);
        entryCount := entryCount + 1;
      }
    }

    /** The body of the check loop: unlink the current entry if it is due, or step over it. */
    method CheckEntry(prev: Node?<Entry>, current: Node<Entry>, tick: nat,
                      ghost kept: seq<Entry>, ghost rest: seq<Entry>)
      returns (due: bool, next: Node?<Entry>)
      requires Valid() && rest != [] && chain.items == kept + rest && current == chain.nodes[|kept|]
      requires prev == if kept == [] then null else chain.nodes[|kept| - 1]
      modifies this, chain, chain.repr
      ensures Valid() && chain.repr == old(chain.repr)
      ensures due <==> rest[0].target <= tick
      ensures chain.items == (if due then kept else kept + [rest[0]]) + rest[1..]
      ensures next == At(chain.nodes, if due then |kept| else |kept| + 1)
      ensures if due then prev == (if kept == [] then null else chain.nodes[|kept| - 1])
              else current == chain.nodes[|kept|]
    {
      hide Linked;
      chain.Links(|kept|);
      Spliced(kept, rest, rest[0]);
      assert chain.items[|kept|] == rest[0];
      due := current.item.target <= tick;
      if due {
        chain.Unlink(prev, current, |kept|);
        next := current.next;
        entryCount := entryCount - 1;
      } else {
        next := current.next;
      }
    }

    /** `wake_up_list_check_and_execute`: the deletion loop refines a filter, and runs the
        callbacks of exactly the entries that are due, in list order. */
    method CheckAndExecute(tick: nat) returns (fired: seq<Entry>)
      requires Valid()
      modifies this, chain, chain.repr
      ensures Valid() && chain.repr == old(chain.repr)
      ensures chain.items == Waiting(old(chain.items), tick)
      ensures fired == Firing(old(chain.items), tick)
    {
      hide Waiting, Firing, Linked;
      fired := [];
      var prev: Node?<Entry> := null;
      var current := chain.head;
      ghost var past, rest, kept := [], chain.items, [];
      NothingChecked(tick);
      while current != null
        invariant past + rest == old(chain.items)
        invariant kept == Waiting(past, tick) && fired == Firing(past, tick)
        invariant Valid() && chain.repr == old(chain.repr)
        invariant chain.items == kept + rest
        invariant current == At(chain.nodes, |kept|)
        invariant prev == if kept == [] then null else chain.nodes[|kept| - 1]
        decreases |rest|
      {
        CheckExtends(past, rest[0], tick);
        Shift(past, rest);
        if current.item.target <= tick && current.item.callback {
          fired := fired + [current.item];
        }
        assert current.item == rest[0] by {
          chain.Links(|kept|);
        }
        var due, next := CheckEntry(prev, current, tick, kept, rest);
        if !due {
          prev := current;
          kept := kept + [rest[0]];
        }
        current := next;
        past, rest := past + [rest[0]], rest[1..];
      }
      assert rest == [] && past == old(chain.items) && chain.items == kept;
    }
  }

  /** The executor: its queue, its counter, the byte stream of the serial port and the record
      of what it releases. */
  class Executor {
    const chain: Chain<Task>
    var taskCount: nat
    var shouldPoll: bool
    var out: seq<byte>
    var log: seq<Event>

    ghost predicate Valid()
      reads this, chain, chain.repr
    {
      chain.Valid() && taskCount == |chain.items|
    }

    constructor ()
      ensures Valid() && chain.items == [] && shouldPoll && out == [] && log == []
      ensures fresh(chain) && fresh(chain.repr)
    {
      chain := new Chain<Task>();
      taskCount := 0;
      shouldPoll := true;
      out, log := [], [];
    }

    /** `executor_spawn`: the task goes to the front, with a waker if there is memory for one. */
    method Spawn(id: nat, future: Future, taskMemory: bool, wakerMemory: bool)
      requires Valid()
      modifies this, chain
      ensures Valid() && fresh(chain.repr - old(chain.repr)) && out == old(out) && log == old(log)
      ensures var task := Task(id, future, false, if wakerMemory then Some(1) else None);
              chain.items == (if taskMemory then [task] else []) + old(chain.items)
      ensures shouldPoll == (taskMemory || old(shouldPoll))
    {
      if taskMemory {
        chain.PushFront(Task(id, future, false, if wakerMemory then Some(1) else None));
        taskCount := taskCount + 1;
        shouldPoll := true;
      }
    }

    /** The body of the scan loop: poll the current task, then unlink it or step over it. */
    method ScanTask(prev: Node?<Task>, current: Node<Task>, env: Env, ghost kept: seq<Task>, ghost rest: seq<Task>)
      returns (removed: bool, next: Node?<Task>)
      requires Valid() && rest != [] && chain.items == kept + rest && current == chain.nodes[|kept|]
      requires prev == if kept == [] then null else chain.nodes[|kept| - 1]
      modifies this, chain, chain.repr
      ensures Valid() && chain.repr == old(chain.repr) && shouldPoll == old(shouldPoll)
      ensures var p := PollTask(rest[0], env);
              && removed == p.ready
              && chain.items == (if removed then kept else kept + [p.task]) + rest[1..]
              && out == old(out) + p.out
              && log == old(log) + (if removed then RemovalEvents(p.task) else [])
      ensures next == At(chain.nodes, if removed then |kept| else |kept| + 1)
      ensures if removed then prev == (if kept == [] then null else chain.nodes[|kept| - 1])
              else current == chain.nodes[|kept|]
    {
      hide PollTask, RemovalEvents, Linked;
      ghost var k := |kept|;
      chain.Links(k);
      assert chain.items[k] == rest[0];
      var polled := PollTask(current.item, env);
      chain.SetItem(current, polled.task, k);
      Spliced(kept, rest, polled.task);
      out := out + polled.out;
      removed := polled.ready;
      if removed {
        chain.Unlink(prev, current, k);
        log := log + RemovalEvents(polled.task);
        next := current.next;
        taskCount := taskCount - 1;
      } else {
        next := current.next;
      }
    }

    /** One pass of `executor_run` over the queue, the i-th task polled under `envs[i]`. The
        in-place deletion refines the filter `Scan`; the result says whether a task is left. */
    method ScanQueue(envs: seq<Env>) returns (pending: bool)
      requires Valid() && |envs| == |chain.items|
      modifies this, chain, chain.repr
      ensures Valid() && chain.repr == old(chain.repr) && shouldPoll == old(shouldPoll)
      ensures var r := Scan(old(chain.items), envs);
              chain.items == r.kept && out == old(out) + r.out && log == old(log) + r.log
      ensures pending <==> chain.items != []
    {
      hide Scan, PollTask, RemovalEvents, Linked;
      pending := false;
      var prev: Node?<Task> := null;
      var current := chain.head;
      var done := 0;
      ghost var past, rest, r := [], chain.items, Scanned([], [], []);
      NothingScanned();
      assert envs[..0] == [];
      while current != null
        invariant past + rest == old(chain.items) && |past| == done
        invariant r == Scan(past, envs[..done])
        invariant Valid() && chain.repr == old(chain.repr) && shouldPoll == old(shouldPoll)
        invariant chain.items == r.kept + rest
        invariant current == At(chain.nodes, |r.kept|)
        invariant prev == if r.kept == [] then null else chain.nodes[|r.kept| - 1]
        invariant out == old(out) + r.out && log == old(log) + r.log
        invariant pending <==> r.kept != []
        decreases |rest|
      {
        ScanExtends(past, envs[..done], rest[0], envs[done]);
        Prefix(envs, done);
        Shift(past, rest);
        var removed, next := ScanTask(prev, current, envs[done], r.kept, rest);
        if !removed {
          pending := true;
          prev := current;
        }
        current := next;
        r := ScanOne(r, rest[0], envs[done]);
        past, rest, done := past + [rest[0]], rest[1..], done + 1;
      }
      assert rest == [] && past == old(chain.items) && envs[..done] == envs && chain.items == r.kept;
    }

    /** One turn of `executor_run`. Interrupts may set the flag before it is loaded (`wokenBefore`)
        and between the load and the act that follows (`wokenAfter`). The turn halts the processor
        exactly when no task is left and the load saw no request to poll; a request that comes after
        the load survives a halt and is lost to a reset, which a scan follows. */
    method RunOnce(envs: seq<Env>, wokenBefore: bool, wokenAfter: bool) returns (halted: bool)
      requires Valid() && |envs| == |chain.items|
      modifies this, chain, chain.repr
      ensures Valid() && chain.repr == old(chain.repr)
      ensures var r := Scan(old(chain.items), envs);
              chain.items == r.kept && out == old(out) + r.out && log == old(log) + r.log
      ensures halted <==> chain.items == [] && !old(shouldPoll) && !wokenBefore
      ensures shouldPoll <==> halted && wokenAfter
    {
      var pending := false;
      if chain.head != null {
        pending := ScanQueue(envs);
      } else {
        NothingScanned();
      }
      if wokenBefore {
        shouldPoll := true;
      }
      var flag := shouldPoll;
      if wokenAfter {
        shouldPoll := true;
      }
      halted := !pending && !flag;
      if !halted {
        shouldPoll := false;
      }
    }
  }
}
