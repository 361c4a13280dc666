/** The log ring buffer of src/logger.c against a queue that drops its oldest entry, and the
    logger built on it. */
module Logger {
  import opened Words
  import opened Strings
  import opened Format

  const CAPACITY: nat := 64
  const MODULE_SIZE: nat := 64
  const MESSAGE_SIZE: nat := 256

  datatype LogEntry = LogEntry(level: nat, source: seq<byte>, message: seq<byte>)

  // ---------------------------------------------------------------- the queue

  /** A full queue drops its oldest entry to make room. */
  function Pushed(q: seq<LogEntry>, e: LogEntry): seq<LogEntry> {
    (if |q| >= CAPACITY then q[1..] else q) + [e]
  }

  datatype Op = Push(e: LogEntry) | Pop

  /** A run of the queue: its contents, every entry that left it, and those of them that a pop
      returned (the others were dropped). */
  datatype Trace = Trace(contents: seq<LogEntry>, gone: seq<LogEntry>, popped: seq<LogEntry>)

  function Step(t: Trace, op: Op): Trace {
    var q := t.contents;
    match op
    case Push(e) => Trace(Pushed(q, e), if |q| >= CAPACITY then t.gone + [q[0]] else t.gone, t.popped)
    case Pop => if q == [] then t else Trace(q[1..], t.gone + [q[0]], t.popped + [q[0]])
  }

  function Run(ops: seq<Op>): Trace {
    if ops == [] then Trace([], [], []) else Step(Run(ops[..|ops| - 1]), ops[|ops| - 1])
  }

  /** Everything pushed, in order. */
  function History(ops: seq<Op>): seq<LogEntry> {
    if ops == [] then []
    else History(ops[..|ops| - 1]) + if ops[|ops| - 1].Push? then [ops[|ops| - 1].e] else []
  }

  /** Over every run the pushed history is the entries that left, in order, followed by the
      current contents, which never exceed the capacity: nothing is lost, repeated or reordered. */
  lemma {:induction false} HistoryIsGonePlusContents(ops: seq<Op>)
    ensures History(ops) == Run(ops).gone + Run(ops).contents
    ensures |Run(ops).contents| <= CAPACITY
    decreases |ops|
  {
    hide Step;
    if ops != [] {
      var n := |ops| - 1;
      HistoryIsGonePlusContents(ops[..n]);
      StepConserves(Run(ops[..n]), ops[n]);
    }
  }

  lemma StepConserves(t: Trace, op: Op)
    requires |t.contents| <= CAPACITY
    ensures |Step(t, op).contents| <= CAPACITY
    ensures Step(t, op).gone + Step(t, op).contents == t.gone + t.contents + if op.Push? then [op.e] else []
  {
  }

  /** Every operation of every run: a push appends its entry, and an entry leaves with it, the oldest,
      if and only if 64 are held; a pop returns and removes the oldest, if there is one. */
  lemma DropsExactlyWhenFull(ops: seq<Op>)
    requires ops != []
    ensures var n := |ops| - 1;
            var t, t' := Run(ops[..n]), Run(ops);
            match ops[n] {
              case Push(e) =>
                && t'.popped == t.popped && t'.contents != [] && t'.contents[|t'.contents| - 1] == e
                && (t'.gone != t.gone <==> |t.contents| == 64)
                && (|t.contents| < 64 ==> t'.contents == t.contents + [e])
                && (|t.contents| == 64 ==> t'.gone == t.gone + [t.contents[0]] && |t'.contents| == 64)
              case Pop =>
                && t'.gone[|t.gone|..] == t'.popped[|t.popped|..]
                && t.contents == t'.popped[|t.popped|..] + t'.contents
                && (t'.popped == t.popped <==> t.contents == [])
            }
  {
    HistoryIsGonePlusContents(ops[..|ops| - 1]);
  }

  /** Without a pop the buffer holds the last 64 entries pushed, or all of them if there are fewer. */
  lemma {:induction false} KeepsLast64(ops: seq<Op>)
    requires forall i :: 0 <= i < |ops| ==> ops[i].Push?
    ensures var h := History(ops);
            && |h| == |ops| && Run(ops).popped == []
            && Run(ops).contents == (if |h| <= 64 then h else h[|h| - 64..])
            && Run(ops).gone == (if |h| <= 64 then [] else h[..|h| - 64])
    decreases |ops|
  {
    hide Step;
    HistoryIsGonePlusContents(ops);
    if ops != [] {
      var n := |ops| - 1;
      KeepsLast64(ops[..n]);
      PushedLast(Run(ops[..n]), ops[n]);
    }
  }

  lemma PushedLast(t: Trace, op: Op)
    requires op.Push? && |t.contents| <= 64
    ensures Step(t, op).popped == t.popped
    ensures |Step(t, op).contents| == (if |t.contents| < 64 then |t.contents| + 1 else 64)
  {
  }

  // ---------------------------------------------------------------- the ring

  const DEBUG_TEXT: seq<byte> := [68, 69, 66, 85, 71]
  const INFO_TEXT: seq<byte> := [73, 78, 70, 79]
  const WARNING_TEXT: seq<byte> := [87, 65, 82, 78, 73, 78, 71]
  const ERROR_TEXT: seq<byte> := [69, 82, 82, 79, 82]
  const UNKNOWN_TEXT: seq<byte> := [85, 78, 75, 78, 79, 87, 78]

  function LevelText(level: nat): seq<byte> {
    if level == 0 then DEBUG_TEXT
    else if level == 1 then INFO_TEXT
    else if level == 2 then WARNING_TEXT
    else if level == 3 then ERROR_TEXT
    else UNKNOWN_TEXT
  }

  /** The line printed for an entry: `[LEVEL] module: message`. */
  function Line(e: LogEntry): seq<byte> {
    [91] + LevelText(e.level) + [93, 32] + e.source + [58, 32] + e.message + [10]
  }

  /** The bytes of a string of ASCII characters. */
  function Bytes(s: string): (b: seq<byte>)
    requires forall i :: 0 <= i < |s| ==> s[i] < 128 as char
    ensures |b| == |s| && forall i :: 0 <= i < |s| ==> b[i] == s[i] as int
  {
    seq(|s|, i requires 0 <= i < |s| => s[i] as int)
  }

  /** The line for each severity, in full. */
  lemma LineReads(e: LogEntry)
    ensures Line(e) ==
            (if e.level == 0 then Bytes("[DEBUG] ") else if e.level == 1 then Bytes("[INFO] ")
             else if e.level == 2 then Bytes("[WARNING] ") else if e.level == 3 then Bytes("[ERROR] ")
             else Bytes("[UNKNOWN] "))
            + e.source + Bytes(": ") + e.message + Bytes("\n")
  {
    assert Bytes("[DEBUG] ") == [91] + DEBUG_TEXT + [93, 32];
    assert Bytes("[INFO] ") == [91] + INFO_TEXT + [93, 32];
    assert Bytes("[WARNING] ") == [91] + WARNING_TEXT + [93, 32];
    assert Bytes("[ERROR] ") == [91] + ERROR_TEXT + [93, 32];
    assert Bytes("[UNKNOWN] ") == [91] + UNKNOWN_TEXT + [93, 32];
    assert Bytes(": ") == [58, 32] && Bytes("\n") == [10];
  }

  function Lines(q: seq<LogEntry>): seq<byte> {
    if q == [] then [] else Line(q[0]) + Lines(q[1..])
  }

  /** The lines of a sequence of entries follow each other in its order. */
  lemma {:induction false} LinesInOrder(a: seq<LogEntry>, e: LogEntry)
    ensures Lines(a + [e]) == Lines(a) + Line(e)
    decreases |a|
  {
    hide Line;
    if a == [] {
      assert [e][1..] == [] && Lines([e]) == Line(e) + Lines([]);
      assert a + [e] == [e];
    } else {
      LinesInOrder(a[1..], e);
      assert (a + [e])[1..] == a[1..] + [e];
    }
  }

  /** The position `i` places after `head`, around the ring. */
  function Slot(head: nat, i: nat): nat {
    if head + i < CAPACITY then head + i else head + i - CAPACITY
  }

  lemma SlotIsModular(head: nat, i: nat)
    requires head < CAPACITY && i <= CAPACITY
    ensures (head + i) % CAPACITY == Slot(head, i) < CAPACITY
  {
  }

  class LogBuffer {
    const buffer: array<LogEntry>
    var head: nat
    var tail: nat
    var count: nat
    /** The entries from oldest to newest. */
    ghost var contents: seq<LogEntry>

    ghost predicate Valid()
      reads this, buffer
    {
      && buffer.Length == CAPACITY
      && head < CAPACITY && count == |contents| <= CAPACITY && tail == (head + count) % CAPACITY
      && forall i :: 0 <= i < count ==> contents[i] == buffer[Slot(head, i)]
    }

    constructor ()
      ensures Valid() && contents == [] && fresh(buffer)
    {
      buffer := new LogEntry[CAPACITY](_ => LogEntry(0, [], []));
      head, tail, count := 0, 0, 0;
      contents := [];
    }

    /** `logger_buffer_push` */
    method Push(e: LogEntry)
      requires Valid()
      modifies this, buffer
      ensures Valid() && contents == Pushed(old(contents), e)
    {
      if count >= CAPACITY {
        DropOldest();
      }
      Append(e);
    }

    method Append(e: LogEntry)
      requires Valid() && count < CAPACITY
      modifies this, buffer
      ensures Valid() && contents == old(contents) + [e]
    {
      SlotIsModular(head, count);
      SlotIsModular(tail, 1);
      assert tail == Slot(head, count);
      buffer[tail] := e;
      tail := (tail + 1) % CAPACITY;
      count := count + 1;
      contents := contents + [e];
    }

    /** Advance the head past the oldest entry. */
    method DropOldest()
      requires Valid() && contents != []
      modifies this
      ensures Valid() && contents == old(contents)[1..] && tail == old(tail) && count == old(count) - 1
    {
      SlotIsModular(head, 1);
      head := (head + 1) % CAPACITY;
      count := count - 1;
      contents := contents[1..];
    }

    /** `logger_buffer_pop` */
    method Pop() returns (ok: bool, e: LogEntry)
      requires Valid()
      modifies this
      ensures Valid() && (ok <==> old(contents) != [])
      ensures if ok then old(contents) == [e] + contents else contents == []
    {
      if count == 0 {
        return false, LogEntry(0, [], []);
      }
      e := buffer[head];
      ok := true;
      DropOldest();
    }

    /** `logger_service`: it terminates, empties the buffer and prints exactly its contents, one
        line each, oldest first. */
    method Service() returns (out: seq<byte>)
      requires Valid()
      modifies this
      ensures Valid() && contents == []
      ensures out == Lines(old(contents))
    {
      hide Line;
      out := [];
      while true
        invariant Valid() && out + Lines(contents) == Lines(old(contents))
        decreases |contents|
      {
        ghost var q := contents;
        var ok, e := Pop();
        if !ok {
          break;
        }
        assert q[0] == e && q[1..] == contents;
        var line := PrintLine(e);
        assert out + line + Lines(contents) == out + (line + Lines(contents));
        out := out + line;
      }
    }
  }

  lemma {:induction false} RunExtends(ops: seq<Op>, i: nat)
    requires i < |ops|
    ensures Run(ops[..i + 1]) == Step(Run(ops[..i]), ops[i])
  {
    assert ops[..i + 1][..i] == ops[..i];
  }

  /** Any run of pushes and pops on a new ring: it holds what the queue holds, the pops return what
      the queue's pops return, and everything pushed has left in order or is still there. */
  method Serve(ops: seq<Op>) returns (ring: LogBuffer, popped: seq<LogEntry>)
    ensures fresh(ring) && ring.Valid() && ring.contents == Run(ops).contents && popped == Run(ops).popped
    ensures History(ops) == Run(ops).gone + ring.contents && ring.count <= CAPACITY
  {
    hide Run, Slot;
    ring := new LogBuffer();
    popped := [];
    EmptyRun();
    assert ops[..0] == [];
    for i := 0 to |ops|
      invariant fresh(ring) && fresh(ring.buffer) && ring.Valid()
      invariant ring.contents == Run(ops[..i]).contents && popped == Run(ops[..i]).popped
    {
      RunExtends(ops, i);
      match ops[i] {
        case Push(e) => ring.Push(e);
        case Pop =>
          var ok, e := ring.Pop();
          if ok {
            popped := popped + [e];
          }
      }
    }
    assert ops[..|ops|] == ops;
    HistoryIsGonePlusContents(ops);
  }

  lemma EmptyRun()
    ensures Run([]) == Trace([], [], [])
  {
  }

  /** The seven writes that print one entry. */
  method PrintLine(e: LogEntry) returns (out: seq<byte>)
    ensures out == Line(e)
  {
    out := [91];
    out := out + LevelText(e.level);
    out := out + [93, 32];
    out := out + e.source;
    out := out + [58, 32];
    out := out + e.message;
    out := out + [10];
  }

  class Logger {
    const ring: LogBuffer
    var level: nat

    constructor ()
      ensures ring.Valid() && ring.contents == [] && level == 1 && fresh(ring) && fresh(ring.buffer)
    {
      ring := new LogBuffer();
      level := 1;
    }

    /** `logger_log`: below the level nothing happens; otherwise an entry is pushed whose module
        name and message are the given ones cut to 63 and 255 characters. */
    method Log(severity: nat, name: seq<byte>, format: seq<byte>, args: seq<Arg>)
      requires ring.Valid() && 0 in name && 0 in format && Matches(Text(format), args)
      modifies ring, ring.buffer
      ensures ring.Valid()
      ensures var source := Clip(Text(name), 63);
              var message := Clip(Render(Text(format), args), 255);
              ring.contents == if severity < level then old(ring.contents)
                               else Pushed(old(ring.contents), LogEntry(severity, source, message))
    {
      hide Render, Matches, Pushed, Clip, Slot, Text;
      if severity < level {
        return;
      }
      var source := CopyName(name);
      var message := FormatMessage(format, args);
      ring.Push(LogEntry(severity, source, message));
    }
  }

  method CopyName(name: seq<byte>) returns (source: seq<byte>)
    requires 0 in name
    ensures source == Clip(Text(name), MODULE_SIZE - 1)
  {
    var buffer := new byte[MODULE_SIZE];
    assert buffer[..0] + Text(name) == Text(name);
    var n := Emit(buffer, MODULE_SIZE, 0, name);
    source := buffer[..n];
  }

  method FormatMessage(format: seq<byte>, args: seq<Arg>) returns (message: seq<byte>)
    requires 0 in format && Matches(Text(format), args)
    ensures message == Clip(Render(Text(format), args), MESSAGE_SIZE - 1)
  {
    var buffer := new byte[MESSAGE_SIZE];
    var n := FormatString(buffer, MESSAGE_SIZE, format, args);
    message := buffer[..n];
  }
}
