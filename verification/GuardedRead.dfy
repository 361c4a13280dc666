/** The guarded access of src/rtc.c: wait until no update is in progress, access three clock
    registers, and accept only if no update is in progress afterwards. The clock hardware
    changes underneath, at any time. */
module GuardedRead {

  /** The clock at one instant: the update-in-progress bit and the time registers. */
  datatype Clock = Clock(updating: bool, seconds: nat, minutes: nat, hours: nat) {
    predicate SameTime(c: Clock) {
      seconds == c.seconds && minutes == c.minutes && hours == c.hours
    }
  }

  /** The history of the hardware: its state at every instant. */
  type Hardware = nat -> Clock

  /** Time registers change only next to an instant at which an update is in progress. */
  ghost predicate ChangesOnlyWhileUpdating(hw: Hardware) {
    forall t: nat :: !hw(t).updating && !hw(t + 1).updating ==> hw(t).SameTime(hw(t + 1))
  }

  ghost predicate Updating(hw: Hardware, from: nat, to: nat) {
    forall t: nat :: from <= t < to ==> hw(t).updating
  }

  /** Every update lasts at least `d` instants. */
  ghost predicate UpdatesLast(hw: Hardware, d: nat) {
    forall t: nat :: hw(t).updating ==>
      exists from: nat, to: nat :: from <= t < to && from + d <= to && Updating(hw, from, to)
  }

  /** The instants at which the processor accesses the clock, one after the other. */
  ghost predicate Increasing(at: seq<nat>) {
    forall i, j :: 0 <= i < j < |at| ==> at[i] < at[j]
  }

  /** A guarded pass (five accesses) takes at most `d` instants. */
  ghost predicate PassesWithin(at: seq<nat>, d: nat) {
    forall i :: 0 <= i && i + 4 < |at| ==> at[i + 4] <= at[i] + d
  }

  /** How an attempt ends: the driver is missing; the accesses at hand ran out while it was
      still waiting or retrying; or the pass whose accesses start at `pass` was accepted. */
  datatype Outcome = Invalid | Retrying | Accepted(pass: nat)

  /** The pass of accesses `k`..`k + 4` is the first acceptable one from access `start` on: the
      inner loop leaves at the first access that finds no update, and a pass whose last access
      finds one sends the outer loop round again. */
  function Attempt(hw: Hardware, at: seq<nat>, start: nat): (r: Outcome)
    ensures r.Accepted? ==>
              && start <= r.pass && r.pass + 4 < |at|
              && !hw(at[r.pass]).updating && !hw(at[r.pass + 4]).updating
    ensures !r.Invalid?
    decreases |at| - start
  {
    if start >= |at| then Retrying
    else if hw(at[start]).updating then Attempt(hw, at, start + 1)
    else if start + 4 >= |at| then Retrying
    else if !hw(at[start + 4]).updating then Accepted(start)
    else Attempt(hw, at, start + 5)
  }

  /** An attempt at access `start` gets to a fresh attempt at access `k`: accesses that find an update
      are waited out one by one, and a pass that starts without an update but ends in one is given up
      after its five accesses. */
  ghost predicate Leads(hw: Hardware, at: seq<nat>, start: nat, k: nat)
    decreases |at| - start
  {
    start == k ||
    (start < |at| && hw(at[start]).updating && Leads(hw, at, start + 1, k)) ||
    (start + 4 < |at| && !hw(at[start]).updating && hw(at[start + 4]).updating && Leads(hw, at, start + 5, k))
  }

  /** A pass is accepted if and only if the attempts get to it and both its guards find no update:
      nothing else is asked of it, and no such pass is passed over. */
  lemma {:induction false} AcceptedExactly(hw: Hardware, at: seq<nat>, start: nat, k: nat)
    ensures Attempt(hw, at, start) == Accepted(k) <==>
              && Leads(hw, at, start, k) && k + 4 < |at|
              && !hw(at[k]).updating && !hw(at[k + 4]).updating
    decreases |at| - start
  {
    if start < |at| {
      AcceptedExactly(hw, at, start + 1, k);
      AcceptedExactly(hw, at, start + 5, k);
    }
  }

  /** `update_guarded_op` over the accesses in `at`: two nested loops, run on until a pass is
      accepted or the accesses at hand are used up. */
  method UpdateGuardedOp(hw: Hardware, at: seq<nat>, present: bool) returns (r: Outcome)
    ensures r == if present then Attempt(hw, at, 0) else Invalid
  {
    if !present {
      return Invalid;
    }
    var k := 0;
    while true
      invariant Attempt(hw, at, k) == Attempt(hw, at, 0)
      decreases |at| - k
    {
      while k < |at| && hw(at[k]).updating
        invariant Attempt(hw, at, k) == Attempt(hw, at, 0)
        decreases |at| - k
      {
        k := k + 1;
      }
      if k + 4 >= |at| {
        return Retrying;
      }
      if !hw(at[k + 4]).updating {
        return Accepted(k);
      }
      k := k + 5;
    }
  }

  /** The three values of a read, each fetched at its own instant. */
  datatype Time = Time(seconds: nat, minutes: nat, hours: nat)

  datatype ReadResult = Failed | Waiting | Read(time: Time)

  /** `read_rtc_time`. */
  method ReadRtcTime(hw: Hardware, at: seq<nat>, present: bool) returns (r: ReadResult)
    ensures r.Failed? <==> !present
    ensures present ==>
              match Attempt(hw, at, 0) {
                case Accepted(k) =>
                  r == Read(Time(hw(at[k + 1]).seconds, hw(at[k + 2]).minutes, hw(at[k + 3]).hours))
                case _ => r == Waiting
              }
  {
    var outcome := UpdateGuardedOp(hw, at, present);
    match outcome {
      case Invalid => r := Failed;
      case Retrying => r := Waiting;
      case Accepted(k) =>
        r := Read(Time(hw(at[k + 1]).seconds, hw(at[k + 2]).minutes, hw(at[k + 3]).hours));
    }
  }

  // ---------------------------------------------------------------- consistency

  /** No update falls strictly inside a window no longer than every update, both of whose ends
      are free of updates. */
  lemma WindowIsQuiet(hw: Hardware, begin: nat, end: nat, d: nat, t: nat)
    requires UpdatesLast(hw, d) && begin <= t <= end <= begin + d
    requires !hw(begin).updating && !hw(end).updating
    ensures !hw(t).updating
  {
  }

  lemma {:induction false} QuietIsConstant(hw: Hardware, begin: nat, end: nat)
    requires ChangesOnlyWhileUpdating(hw) && begin <= end
    requires forall t: nat :: begin <= t <= end ==> !hw(t).updating
    ensures hw(begin).SameTime(hw(end))
    decreases end
  {
    if begin < end {
      QuietIsConstant(hw, begin, end - 1);
    }
  }

  /** If registers change only while an update is in progress, and every update lasts as long as a pass,
      then during an accepted pass, however many retries came before it, no update is in
      progress and the registers do not change. */
  lemma AcceptedPassIsQuiet(hw: Hardware, at: seq<nat>, d: nat, k: nat, t: nat)
    requires ChangesOnlyWhileUpdating(hw) && UpdatesLast(hw, d)
    requires Increasing(at) && PassesWithin(at, d) && Attempt(hw, at, 0) == Accepted(k)
    requires at[k] <= t <= at[k + 4]
    ensures !hw(t).updating && hw(at[k]).SameTime(hw(t))
  {
    forall x: nat | at[k] <= x <= t
      ensures !hw(x).updating
    {
      WindowIsQuiet(hw, at[k], at[k + 4], d, x);
    }
    QuietIsConstant(hw, at[k], t);
  }

  /** Hence the time returned is one the clock showed at a single instant. */
  lemma ReadIsOneInstant(hw: Hardware, at: seq<nat>, d: nat, k: nat)
    requires ChangesOnlyWhileUpdating(hw) && UpdatesLast(hw, d)
    requires Increasing(at) && PassesWithin(at, d) && Attempt(hw, at, 0) == Accepted(k)
    ensures forall t: nat :: at[k] <= t <= at[k + 4] ==>
              Time(hw(at[k + 1]).seconds, hw(at[k + 2]).minutes, hw(at[k + 3]).hours)
              == Time(hw(t).seconds, hw(t).minutes, hw(t).hours)
  {
    assert Increasing(at) ==> at[k] < at[k + 1] < at[k + 2] < at[k + 3] < at[k + 4];
    AcceptedPassIsQuiet(hw, at, d, k, at[k + 1]);
    AcceptedPassIsQuiet(hw, at, d, k, at[k + 2]);
    AcceptedPassIsQuiet(hw, at, d, k, at[k + 3]);
    forall t: nat | at[k] <= t <= at[k + 4]
      ensures hw(at[k]).SameTime(hw(t))
    {
      AcceptedPassIsQuiet(hw, at, d, k, t);
    }
  }

  // ---------------------------------------------------------------- progress

  /** The loop does return: once no access finds an update, the pass under way may fail, and the
      next is accepted, within nine accesses. */
  lemma {:induction false} QuietClockIsRead(hw: Hardware, at: seq<nat>, start: nat, calm: nat)
    requires start <= calm && calm + 9 <= |at|
    requires forall i :: calm <= i < |at| ==> !hw(at[i]).updating
    ensures Attempt(hw, at, start).Accepted? && Attempt(hw, at, start).pass <= calm + 4
    decreases |at| - start
  {
    if start < calm {
      if hw(at[start]).updating {
        QuietClockIsRead(hw, at, start + 1, calm);
      } else if hw(at[start + 4]).updating {
        assert start + 4 < calm;
        QuietClockIsRead(hw, at, start + 5, calm);
      }
    }
  }

  // ---------------------------------------------------------------- the threshold

  /** The time read in the pass from access `k` on is one that the clock showed at some instant. */
  ghost predicate WasShown(hw: Hardware, at: seq<nat>, k: nat)
    requires k + 4 < |at|
  {
    exists t: nat :: Time(hw(t).seconds, hw(t).minutes, hw(t).hours)
                     == Time(hw(at[k + 1]).seconds, hw(at[k + 2]).minutes, hw(at[k + 3]).hours)
  }

  /** On every clock whose updates last at least `e` instants, with passes of at most `d` instants,
      every accepted read is a time that the clock showed. */
  ghost predicate ReadsConsistent(d: nat, e: nat) {
    forall hw: Hardware, at: seq<nat>, k: nat ::
      && ChangesOnlyWhileUpdating(hw) && UpdatesLast(hw, e) && Increasing(at) && PassesWithin(at, d)
      && Attempt(hw, at, 0) == Accepted(k)
      ==> WasShown(hw, at, k)
  }

  /** A clock that carries 59 s into the next minute during an update of `d - 1` instants. */
  function ShortUpdate(d: nat): Hardware {
    t => Clock(1 <= t < d, if t < 2 then 59 else 0, if t < 2 then 0 else 1, 0)
  }

  /** For every length of pass, an update just shorter can be missed by both guards, and a time
      accepted that the clock never showed: 59 s read before the carry, 1 min read after it. */
  lemma ShortUpdateTearsRead(d: nat)
    requires 4 <= d
    ensures ChangesOnlyWhileUpdating(ShortUpdate(d)) && UpdatesLast(ShortUpdate(d), d - 1)
    ensures Increasing([0, 1, 2, 3, d]) && PassesWithin([0, 1, 2, 3, d], d)
    ensures Attempt(ShortUpdate(d), [0, 1, 2, 3, d], 0) == Accepted(0)
    ensures !WasShown(ShortUpdate(d), [0, 1, 2, 3, d], 0)
  {
    var hw := ShortUpdate(d);
    forall t: nat | hw(t).updating
      ensures exists from: nat, to: nat :: from <= t < to && from + (d - 1) <= to && Updating(hw, from, to)
    {
      assert Updating(hw, 1, d);
    }
  }

  lemma ShorterToo(hw: Hardware, d: nat, e: nat)
    requires UpdatesLast(hw, d) && e <= d
    ensures UpdatesLast(hw, e)
  {
  }

  /** The threshold. Accepted reads are consistent on every clock and every schedule if and only if
      updates last at least as long as a pass may take; a bound too short for five accesses in a
      row admits no pass at all. */
  lemma ConsistentExactlyWhenUpdatesLast(d: nat, e: nat)
    ensures ReadsConsistent(d, e) <==> d < 4 || d <= e
  {
    if 4 <= d && e < d {
      ShortUpdateTearsRead(d);
      ShorterToo(ShortUpdate(d), d - 1, e);
    } else {
      forall hw: Hardware, at: seq<nat>, k: nat
        | && ChangesOnlyWhileUpdating(hw) && UpdatesLast(hw, e) && Increasing(at) && PassesWithin(at, d)
          && Attempt(hw, at, 0) == Accepted(k)
        ensures WasShown(hw, at, k)
      {
        assert at[k] < at[k + 1] < at[k + 2] < at[k + 3] < at[k + 4];
        ShorterToo(hw, e, d);
        ReadIsOneInstant(hw, at, d, k);
        assert WasShown(hw, at, k) by {
          assert Time(hw(at[k]).seconds, hw(at[k]).minutes, hw(at[k]).hours)
              == Time(hw(at[k + 1]).seconds, hw(at[k + 2]).minutes, hw(at[k + 3]).hours);
        }
      }
    }
  }
}
